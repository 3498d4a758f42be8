/** The spanning tree towards the controller (VCC): one switch's table, updated in place by
    advertisements, and the network of such tables in every run in which entries do not
    expire, with advertisements delayed, duplicated, reordered or lost. */
module SpanningTree {
  import opened Wrappers

  type Mac = nat
  type Switch = nat

  const UINT16 := 0x1_0000
  const MAX_TTL := 15

  datatype ParentEntry = ParentEntry(parent: Mac, hops: nat)

  /** A count as sixteen bits hold it. */
  function Stored(n: nat): (r: nat)
    ensures r < UINT16
  {
    if n < UINT16 then n else n % 0x1_0000
  }

  /** What an advertisement of the given cost makes of a switch's entry. The comparison is
      made in a wider type than the sixteen bits the count is stored in. */
  function Offer(e: Option<ParentEntry>, from: Mac, cost: nat): ParentEntry {
    if e.Some? && e.value.hops < cost + 1 then e.value
    else ParentEntry(from, Stored(cost + 1))
  }

  class SpanningTreeState {
    var forwardingTableToVCC: map<Mac, ParentEntry>
    var forwardingTableFromVCC: map<Mac, Mac>

    constructor ()
      ensures forwardingTableToVCC == map[] && forwardingTableFromVCC == map[]
    {
      forwardingTableToVCC, forwardingTableFromVCC := map[], map[];
    }

    function EntryFor(vcc: Mac): Option<ParentEntry>
      reads this
    {
      if vcc in forwardingTableToVCC then Some(forwardingTableToVCC[vcc]) else None
    }

    /** Returns whether an entry existed and was taken over or refreshed. */
    method UpdateCostToVCC(neighbor: Mac, vcc: Mac, cost: nat) returns (refreshed: bool)
      modifies this`forwardingTableToVCC
      ensures forwardingTableToVCC == old(forwardingTableToVCC)[vcc := Offer(old(EntryFor(vcc)), neighbor, cost)]
      ensures forwardingTableToVCC[vcc] ==
              if vcc in old(forwardingTableToVCC) && old(forwardingTableToVCC)[vcc].hops <= cost
              then old(forwardingTableToVCC)[vcc] else ParentEntry(neighbor, (cost + 1) % 65536)
      ensures refreshed <==> vcc in old(forwardingTableToVCC) && old(forwardingTableToVCC)[vcc].hops >= cost + 1
    {
      if vcc in forwardingTableToVCC {
        var entry := forwardingTableToVCC[vcc];
        if entry.hops >= cost + 1 {
          entry := entry.(hops := Stored(cost + 1));
          if entry.parent != neighbor {
            entry := entry.(parent := neighbor);
          }
          forwardingTableToVCC := forwardingTableToVCC[vcc := entry];
          return true;
        }
        assert forwardingTableToVCC == forwardingTableToVCC[vcc := entry];
        return false;
      }
      forwardingTableToVCC := forwardingTableToVCC[vcc := ParentEntry(neighbor, Stored(cost + 1))];
      return false;
    }

    method UpdateChild(child: Mac, vcc: Mac) returns (refreshed: bool)
      modifies this`forwardingTableFromVCC
      ensures forwardingTableFromVCC == old(forwardingTableFromVCC)[child := vcc]
      ensures refreshed <==> child in old(forwardingTableFromVCC)
    {
      refreshed := child in forwardingTableFromVCC;
      forwardingTableFromVCC := forwardingTableFromVCC[child := vcc];
    }

    method GetParentNodeToVCC(vcc: Mac) returns (parent: Option<Mac>)
      ensures parent == if EntryFor(vcc).Some? then Some(EntryFor(vcc).value.parent) else None
    {
      parent := None;
      if vcc in forwardingTableToVCC {
        parent := Some(forwardingTableToVCC[vcc].parent);
      }
    }
  }

  // ----- the network

  /** owner names the switch of each interface; links join interfaces, both ways. */
  datatype Topo = Topo(owner: map<Mac, Switch>, links: set<(Mac, Mac)>, vcc: Mac) {
    ghost predicate Valid() {
      && vcc in owner
      && (forall m, n {:trigger (m, n) in links} :: (m, n) in links ==> m in owner && n in owner && (n, m) in links)
      && |owner.Values| < UINT16
    }

    ghost function Root(): Switch
      requires Valid()
    {
      owner[vcc]
    }

    ghost predicate Adjacent(v: Switch, u: Switch)
      requires Valid()
    {
      exists m, n :: (m, n) in links && owner[m] == v && owner[n] == u
    }

    /** u is at most r links away from the controller's switch. */
    ghost predicate Within(u: Switch, r: nat)
      requires Valid()
      decreases r
    {
      if r == 0 then u == Root()
      else Within(u, r - 1) || exists m, n :: (m, n) in links && owner[n] == u && Within(owner[m], r - 1)
    }

    /** u is exactly r links away. */
    ghost predicate AtDistance(u: Switch, r: nat)
      requires Valid()
    {
      Within(u, r) && (r > 0 ==> !Within(u, r - 1))
    }
  }

  /** An advertisement as broadcast from one interface. */
  datatype Ad = Ad(src: Mac, cost: nat)

  /** A local-topology packet of switch src on its way up; bound is what src's hop count allowed. */
  datatype Report = Report(src: Switch, at: Switch, ttl: nat, relayed: nat, bound: nat)

  /** delivered: the switches whose reports the controller has received. */
  datatype State = State(entries: map<Switch, ParentEntry>, ads: set<Ad>, reports: set<Report>, delivered: set<Switch>)

  datatype Event =
    | Advertise(m: Mac)
    | Receive(ad: Ad, n: Mac)
    | LoseAd(ad: Ad)
    | Send(v: Switch)
    | Relay(p: Report)
    | Deliver(p: Report)
    | DropReport(p: Report)
    | LoseReport(p: Report)

  function EntryOf(s: State, u: Switch): Option<ParentEntry> {
    if u in s.entries then Some(s.entries[u]) else None
  }

  /** The controller's own switch is configured with cost 0 to itself; all others start
      without an entry. */
  ghost function Initial(t: Topo): State
    requires t.Valid()
  {
    State(map[t.Root() := Offer(None, t.vcc, 0)], {}, {}, {})
  }

  ghost predicate Step(t: Topo, s: State, e: Event, s': State)
    requires t.Valid()
  {
    match e
    case Advertise(m) =>
      && m in t.owner && t.owner[m] in s.entries
      && s' == s.(ads := s.ads + {Ad(m, s.entries[t.owner[m]].hops)})
    case Receive(ad, n) =>
      && ad in s.ads && (ad.src, n) in t.links
      && s' == s.(entries := s.entries[t.owner[n] := Offer(EntryOf(s, t.owner[n]), ad.src, ad.cost)])
    case LoseAd(ad) =>
      s' == s.(ads := s.ads - {ad})
    case Send(v) =>
      && v in s.entries && s.entries[v].parent in t.owner
      && var bound := if v == t.Root() then 1 else s.entries[v].hops - 1;
         bound >= 0 && s' == s.(reports := s.reports + {Report(v, t.owner[s.entries[v].parent], MAX_TTL, 0, bound)})
    case Relay(p) =>
      && p in s.reports && p.at != t.Root() && p.at in s.entries && s.entries[p.at].parent in t.owner && p.ttl >= 1
      && var q := Report(p.src, t.owner[s.entries[p.at].parent], p.ttl - 1, p.relayed + 1, p.bound);
         s.reports - {p} + {q} <= s'.reports <= s.reports + {q} && s' == s.(reports := s'.reports)
    case Deliver(p) =>
      && p in s.reports && p.at == t.Root()
      && s.reports - {p} <= s'.reports <= s.reports
      && s' == s.(reports := s'.reports, delivered := s.delivered + {p.src})
    case DropReport(p) =>
      p in s.reports && p.at != t.Root() && p.ttl < 1 && s' == s.(reports := s.reports - {p})
    case LoseReport(p) =>
      s' == s.(reports := s.reports - {p})
  }

  ghost predicate Run(t: Topo, states: seq<State>, events: seq<Event>)
    requires t.Valid()
  {
    && |states| == |events| + 1
    && forall i :: 0 <= i < |events| ==> Step(t, states[i], events[i], states[i + 1])
  }

  // ----- safety

  /** A switch's entry: its count is never below the true distance plus one nor above the
      number of switches that have entries; the parent is adjacent and strictly closer. */
  ghost predicate SafeEntry(t: Topo, s: State, u: Switch)
    requires t.Valid() && u in s.entries
  {
    var e := s.entries[u];
    && 1 <= e.hops <= |s.entries| && t.Within(u, e.hops - 1)
    && (u == t.Root() ==> e == ParentEntry(t.vcc, 1))
    && (u != t.Root() ==>
          && e.parent in t.owner
          && var v := t.owner[e.parent];
             t.Adjacent(v, u) && v in s.entries && s.entries[v].hops < e.hops)
  }

  ghost predicate SafeAd(t: Topo, s: State, ad: Ad)
    requires t.Valid()
  {
    && ad.src in t.owner && t.owner[ad.src] in s.entries
    && s.entries[t.owner[ad.src]].hops <= ad.cost <= |s.entries|
  }

  /** The relays made and still needed stay within the sender's bound. */
  ghost predicate SafeReport(s: State, p: Report) {
    p.at in s.entries && p.relayed + s.entries[p.at].hops <= p.bound && p.ttl + p.relayed == MAX_TTL
  }

  ghost predicate Safe(t: Topo, s: State)
    requires t.Valid()
  {
    && t.Root() in s.entries && s.entries.Keys <= t.owner.Values
    && (forall u {:trigger SafeEntry(t, s, u)} :: u in s.entries ==> SafeEntry(t, s, u))
    && (forall ad {:trigger SafeAd(t, s, ad)} :: ad in s.ads ==> SafeAd(t, s, ad))
    && (forall p {:trigger SafeReport(s, p)} :: p in s.reports ==> SafeReport(s, p))
  }

  lemma {:induction false} WithinGrows(t: Topo, u: Switch, i: nat, j: nat)
    requires t.Valid() && i <= j && t.Within(u, i)
    ensures t.Within(u, j)
  {
    if i < j {
      WithinGrows(t, u, i, j - 1);
    }
  }

  lemma SubsetSmaller<T>(a: set<T>, b: set<T>)
    requires a <= b
    ensures |a| <= |b|
  {
    assert |b - a| + |a| == |b| by {
      assert b == a + (b - a);
    }
  }

  /** An advertisement can only lower a count, and never wraps it. */
  lemma ReceiveOffers(t: Topo, s: State, ad: Ad, n: Mac)
    requires t.Valid() && Safe(t, s) && ad in s.ads && (ad.src, n) in t.links
    ensures ad.cost >= 1
    ensures var u := t.owner[n];
            var e := Offer(EntryOf(s, u), ad.src, ad.cost);
            if u in s.entries && s.entries[u].hops <= ad.cost then e == s.entries[u]
            else u != t.Root() && e == ParentEntry(ad.src, ad.cost + 1) && e.hops <= |s.entries.Keys + {u}|
  {
    var u := t.owner[n];
    assert SafeAd(t, s, ad);
    assert SafeEntry(t, s, t.owner[ad.src]);
    if u in s.entries {
      assert SafeEntry(t, s, u);
      assert s.entries.Keys + {u} == s.entries.Keys;
    } else {
      assert |s.entries.Keys + {u}| == |s.entries.Keys| + 1;
    }
    SubsetSmaller(s.entries.Keys + {u}, t.owner.Values);
  }

  lemma OfferedDistance(t: Topo, s: State, ad: Ad, n: Mac)
    requires t.Valid() && Safe(t, s) && ad in s.ads && (ad.src, n) in t.links
    ensures t.Within(t.owner[n], ad.cost)
  {
    assert SafeAd(t, s, ad);
    assert SafeEntry(t, s, t.owner[ad.src]);
    WithinGrows(t, t.owner[ad.src], s.entries[t.owner[ad.src]].hops - 1, ad.cost - 1);
  }

  /** Entries stay safe when one of them falls and others stay. */
  lemma EntrySurvives(t: Topo, s: State, s': State, v: Switch)
    requires t.Valid() && v in s.entries && SafeEntry(t, s, v) && v in s'.entries && s'.entries[v] == s.entries[v]
    requires s.entries.Keys <= s'.entries.Keys
    requires forall w :: w in s.entries ==> s'.entries[w].hops <= s.entries[w].hops
    ensures SafeEntry(t, s', v)
  {
    SubsetSmaller(s.entries.Keys, s'.entries.Keys);
  }

  lemma AdSurvives(t: Topo, s: State, s': State, ad: Ad)
    requires t.Valid() && SafeAd(t, s, ad) && s.entries.Keys <= s'.entries.Keys
    requires forall w :: w in s.entries ==> s'.entries[w].hops <= s.entries[w].hops
    ensures SafeAd(t, s', ad)
  {
    SubsetSmaller(s.entries.Keys, s'.entries.Keys);
  }

  lemma NewEntryIsSafe(t: Topo, s: State, ad: Ad, n: Mac, s': State)
    requires t.Valid() && Safe(t, s) && Step(t, s, Receive(ad, n), s')
    requires s'.entries[t.owner[n]] == ParentEntry(ad.src, ad.cost + 1) && t.owner[n] != t.Root()
    requires t.owner[n] in s.entries ==> s.entries[t.owner[n]].hops > ad.cost
    requires ad.cost + 1 <= |s.entries.Keys + {t.owner[n]}|
    ensures SafeEntry(t, s', t.owner[n])
  {
    var u := t.owner[n];
    assert SafeAd(t, s, ad);
    OfferedDistance(t, s, ad, n);
    assert t.Adjacent(t.owner[ad.src], u);
    assert s'.entries.Keys == s.entries.Keys + {u};
  }

  lemma ReceiveIsSafe(t: Topo, s: State, ad: Ad, n: Mac, s': State)
    requires t.Valid() && Safe(t, s) && Step(t, s, Receive(ad, n), s')
    ensures Safe(t, s')
  {
    var u := t.owner[n];
    ReceiveOffers(t, s, ad, n);
    assert s'.entries.Keys == s.entries.Keys + {u};
    if s'.entries[u] == ParentEntry(ad.src, ad.cost + 1) && !(u in s.entries && s.entries[u].hops <= ad.cost) {
      NewEntryIsSafe(t, s, ad, n, s');
    }
    forall v | v in s'.entries
      ensures SafeEntry(t, s', v)
    {
      if v in s.entries && s'.entries[v] == s.entries[v] {
        assert SafeEntry(t, s, v);
        EntrySurvives(t, s, s', v);
      }
    }
    OthersSurvive(t, s, s');
  }

  lemma OthersSurvive(t: Topo, s: State, s': State)
    requires t.Valid() && Safe(t, s) && s' == s.(entries := s'.entries)
             && s.entries.Keys <= s'.entries.Keys <= t.owner.Values
    requires forall w :: w in s.entries ==> s'.entries[w].hops <= s.entries[w].hops
    requires forall v {:trigger SafeEntry(t, s', v)} :: v in s'.entries ==> SafeEntry(t, s', v)
    ensures Safe(t, s')
  {
    forall a | a in s'.ads
      ensures SafeAd(t, s', a)
    {
      assert SafeAd(t, s, a);
      AdSurvives(t, s, s', a);
    }
    forall p | p in s'.reports
      ensures SafeReport(s', p)
    {
      assert SafeReport(s, p);
    }
  }

  lemma SameEntriesSafe(t: Topo, s: State, s': State)
    requires t.Valid() && Safe(t, s) && s'.entries == s.entries
    requires forall ad :: ad in s'.ads ==> ad in s.ads || SafeAd(t, s, ad)
    requires forall p :: p in s'.reports ==> p in s.reports || SafeReport(s, p)
    ensures Safe(t, s')
  {
    forall v | v in s'.entries
      ensures SafeEntry(t, s', v)
    {
      assert SafeEntry(t, s, v);
    }
    forall a | a in s'.ads
      ensures SafeAd(t, s', a)
    {
      assert a in s.ads ==> SafeAd(t, s, a);
    }
    forall p | p in s'.reports
      ensures SafeReport(s', p)
    {
      assert p in s.reports ==> SafeReport(s, p);
    }
  }

  lemma ReportIsSafe(t: Topo, s: State, v: Switch)
    requires t.Valid() && Safe(t, s) && v in s.entries
    ensures s.entries[v].parent in t.owner
    ensures var p := t.owner[s.entries[v].parent];
            p in s.entries && (if v == t.Root() then p == v else s.entries[p].hops < s.entries[v].hops)
  {
    assert SafeEntry(t, s, v);
  }

  /** Safety is kept by every step that is not an expiry. */
  lemma StepIsSafe(t: Topo, s: State, e: Event, s': State)
    requires t.Valid() && Safe(t, s) && Step(t, s, e, s')
    ensures Safe(t, s')
  {
    match e
    case Receive(ad, n) =>
      ReceiveIsSafe(t, s, ad, n, s');
    case Advertise(m) =>
      assert SafeEntry(t, s, t.owner[m]);
      SameEntriesSafe(t, s, s');
    case Send(v) =>
      ReportIsSafe(t, s, v);
      assert SafeEntry(t, s, t.Root());
      SameEntriesSafe(t, s, s');
    case Relay(p) =>
      ReportIsSafe(t, s, p.at);
      assert SafeReport(s, p);
      SameEntriesSafe(t, s, s');
    case _ =>
      SameEntriesSafe(t, s, s');
  }

  lemma InitialIsSafe(t: Topo)
    requires t.Valid()
    ensures Safe(t, Initial(t))
  {
    assert Initial(t).entries.Keys == {t.Root()};
  }

  lemma {:induction false} StaysSafe(t: Topo, states: seq<State>, events: seq<Event>, i: nat)
    requires t.Valid() && Run(t, states, events) && Safe(t, states[0]) && i < |states|
    ensures Safe(t, states[i])
  {
    if i > 0 {
      StaysSafe(t, states, events, i - 1);
      StepIsSafe(t, states[i - 1], events[i - 1], states[i]);
    }
  }

  lemma RunIsSafe(t: Topo, states: seq<State>, events: seq<Event>, i: nat)
    requires t.Valid() && Run(t, states, events) && states[0] == Initial(t) && i < |states|
    ensures Safe(t, states[i])
  {
    InitialIsSafe(t);
    StaysSafe(t, states, events, i);
  }

  /** Sixteen bits suffice: no count stored or in flight reaches 65536. */
  lemma CountsFit(t: Topo, s: State)
    requires t.Valid() && Safe(t, s)
    ensures forall u :: u in s.entries ==> s.entries[u].hops < UINT16
    ensures forall ad :: ad in s.ads ==> ad.cost < UINT16
  {
    SubsetSmaller(s.entries.Keys, t.owner.Values);
    forall u | u in s.entries
      ensures s.entries[u].hops < UINT16
    {
      assert SafeEntry(t, s, u);
    }
    forall ad | ad in s.ads
      ensures ad.cost < UINT16
    {
      assert SafeAd(t, s, ad);
    }
  }

  /** Parent pointers are acyclic: following them from v reaches the controller's switch in
      at most hops(v) - 1 moves. */
  lemma {:induction false} ParentsLeadHome(t: Topo, s: State, v: Switch) returns (path: seq<Switch>)
    requires t.Valid() && Safe(t, s) && v in s.entries
    ensures path != [] && path[0] == v && path[|path| - 1] == t.Root() && |path| <= s.entries[v].hops
    ensures forall i :: 0 <= i < |path| ==> path[i] in s.entries
    ensures forall i :: 0 <= i < |path| - 1 ==>
              s.entries[path[i]].parent in t.owner && path[i + 1] == t.owner[s.entries[path[i]].parent]
    ensures forall i, j :: 0 <= i < j < |path| ==> s.entries[path[j]].hops < s.entries[path[i]].hops
    decreases s.entries[v].hops
  {
    ReportIsSafe(t, s, v);
    assert SafeEntry(t, s, v);
    if v == t.Root() {
      path := [v];
    } else {
      var rest := ParentsLeadHome(t, s, t.owner[s.entries[v].parent]);
      path := [v] + rest;
    }
  }

  /** A local-topology packet sent when its sender's count was small enough is never stopped
      by its time to live, however the tree changes under way: it is home, or can be
      relayed, and is relayed at most hops(v) - 2 times after the sender's own push. */
  lemma ReportsArrive(t: Topo, s: State, p: Report)
    requires t.Valid() && Safe(t, s) && p in s.reports
    ensures p.relayed + 1 <= p.bound
    ensures p.at != t.Root() ==> p.relayed + 2 <= p.bound
    ensures p.at != t.Root() && p.bound <= MAX_TTL + 1 ==>
              p.ttl >= 1 && p.at in s.entries && s.entries[p.at].parent in t.owner
  {
    assert SafeReport(s, p);
    assert SafeEntry(t, s, p.at);
    if p.at != t.Root() {
      ReportIsSafe(t, s, p.at);
      assert SafeEntry(t, s, t.owner[s.entries[p.at].parent]);
    }
  }

  /** A report of v that its time to live can bring home is on its way. */
  ghost predicate OnItsWay(s: State, v: Switch) {
    exists p :: p in s.reports && p.src == v && p.bound <= MAX_TTL + 1
  }

  lemma ReportStep(t: Topo, s: State, e: Event, s': State, v: Switch)
    requires t.Valid() && Safe(t, s) && Step(t, s, e, s') && (e.LoseReport? ==> e.p.src != v)
    requires OnItsWay(s, v) || v in s.delivered
    ensures OnItsWay(s', v) || v in s'.delivered
  {
    if OnItsWay(s, v) {
      var p :| p in s.reports && p.src == v && p.bound <= MAX_TTL + 1;
      ReportsArrive(t, s, p);
      if e == Relay(p) {
        assert Report(p.src, t.owner[s.entries[p.at].parent], p.ttl - 1, p.relayed + 1, p.bound) in s'.reports;
      } else if e != Deliver(p) {
        assert p in s'.reports;
      }
    }
  }

  /** The packet of v is sent at event i with a hop count that its time to live allows for. */
  ghost predicate Sent(states: seq<State>, events: seq<Event>, i: nat, v: Switch)
    requires |states| == |events| + 1
  {
    i < |events| && events[i] == Send(v) && v in states[i].entries && states[i].entries[v].hops <= MAX_TTL + 2
  }

  lemma {:induction false} ReportFollowed(t: Topo, states: seq<State>, events: seq<Event>, i: nat, j: nat, v: Switch)
    requires t.Valid() && Run(t, states, events) && Safe(t, states[0])
    requires Sent(states, events, i, v) && i < j <= |events|
    requires forall h :: i < h < |events| && events[h].LoseReport? ==> events[h].p.src != v
    ensures OnItsWay(states[j], v) || v in states[j].delivered
  {
    assert Step(t, states[j - 1], events[j - 1], states[j]);
    if j - 1 == i {
      var e := states[i].entries[v];
      var bound := if v == t.Root() then 1 else e.hops - 1;
      assert Report(v, t.owner[e.parent], MAX_TTL, 0, bound) in states[j].reports;
    } else {
      ReportFollowed(t, states, events, i, j - 1, v);
      StaysSafe(t, states, events, j - 1);
      ReportStep(t, states[j - 1], events[j - 1], states[j], v);
    }
  }

  /** A topology report sent with a small enough hop count, that is neither lost nor left in flight
      at the end of the run, has reached the controller: it never runs out of time to live,
      however the tree changes under way. */
  lemma SentMeansDelivered(t: Topo, states: seq<State>, events: seq<Event>, i: nat, v: Switch)
    requires t.Valid() && Run(t, states, events) && Safe(t, states[0]) && Sent(states, events, i, v)
    requires forall h :: i < h < |events| && events[h].LoseReport? ==> events[h].p.src != v
    requires forall p :: p in states[|events|].reports ==> p.src != v
    ensures v in states[|events|].delivered
  {
    ReportFollowed(t, states, events, i, |events|, v);
  }

  // ----- convergence

  /** From state i to state j every switch that had an entry at the start advertises on every
      link, and each of these advertisements is received. */
  ghost predicate FullRound(t: Topo, states: seq<State>, events: seq<Event>, i: nat, j: nat)
    requires t.Valid() && Run(t, states, events)
  {
    && i <= j < |states|
    && forall m: Mac, n: Mac :: (m, n) in t.links && t.owner[m] in states[i].entries ==>
         exists a, b :: i <= a < b < j && events[a] == Advertise(m)
           && t.owner[m] in states[a].entries
           && events[b] == Receive(Ad(m, states[a].entries[t.owner[m]].hops), n)
  }

  /** Entries persist and counts never rise. */
  lemma {:induction false} CountsFall(t: Topo, states: seq<State>, events: seq<Event>, u: Switch, i: nat, j: nat)
    requires t.Valid() && Run(t, states, events) && states[0] == Initial(t) && i <= j < |states|
    requires u in states[i].entries
    ensures u in states[j].entries && states[j].entries[u].hops <= states[i].entries[u].hops
  {
    if i < j {
      CountsFall(t, states, events, u, i, j - 1);
      RunIsSafe(t, states, events, j - 1);
      var e := events[j - 1];
      assert Step(t, states[j - 1], e, states[j]);
      if e.Receive? {
        ReceiveOffers(t, states[j - 1], e.ad, e.n);
      }
    }
  }

  lemma RoundSpreads(t: Topo, states: seq<State>, events: seq<Event>, i: nat, j: nat, m: Mac, n: Mac)
    requires t.Valid() && Run(t, states, events) && states[0] == Initial(t) && FullRound(t, states, events, i, j)
    requires (m, n) in t.links && t.owner[m] in states[i].entries
    ensures t.owner[n] in states[j].entries
    ensures states[j].entries[t.owner[n]].hops <= states[i].entries[t.owner[m]].hops + 1
  {
    var a, b :| i <= a < b < j && events[a] == Advertise(m) && t.owner[m] in states[a].entries
      && events[b] == Receive(Ad(m, states[a].entries[t.owner[m]].hops), n);
    CountsFall(t, states, events, t.owner[m], i, a);
    RunIsSafe(t, states, events, b);
    assert Step(t, states[b], events[b], states[b + 1]);
    ReceiveOffers(t, states[b], events[b].ad, n);
    CountsFall(t, states, events, t.owner[n], b + 1, j);
  }

  /** rounds[0], rounds[1], ... delimit consecutive full rounds of the run. */
  ghost predicate Rounds(t: Topo, states: seq<State>, events: seq<Event>, rounds: seq<nat>)
    requires t.Valid() && Run(t, states, events)
  {
    && rounds != []
    && (forall i :: 0 <= i < |rounds| ==> rounds[i] < |states|)
    && forall i :: 0 <= i < |rounds| - 1 ==> FullRound(t, states, events, rounds[i], rounds[i + 1])
  }

  lemma RootHoldsOne(t: Topo, s: State)
    requires t.Valid() && Safe(t, s)
    ensures t.Root() in s.entries && s.entries[t.Root()].hops == 1
  {
    assert SafeEntry(t, s, t.Root());
  }

  lemma Predecessor(t: Topo, u: Switch, d: nat) returns (m: Mac, n: Mac)
    requires t.Valid() && d > 0 && t.Within(u, d) && !t.Within(u, d - 1)
    ensures (m, n) in t.links && t.owner[n] == u && t.Within(t.owner[m], d - 1)
  {
    m, n :| (m, n) in t.links && t.owner[n] == u && t.Within(t.owner[m], d - 1);
  }

  lemma {:induction false} RoundsBound(t: Topo, states: seq<State>, events: seq<Event>, rounds: seq<nat>, r: nat,
                                       d: nat, u: Switch)
    requires t.Valid() && Run(t, states, events) && states[0] == Initial(t) && Rounds(t, states, events, rounds)
    requires d <= r < |rounds| && t.Within(u, d)
    ensures u in states[rounds[r]].entries && states[rounds[r]].entries[u].hops <= d + 1
    decreases d, r
  {
    if d == 0 {
      RunIsSafe(t, states, events, rounds[r]);
      RootHoldsOne(t, states[rounds[r]]);
    } else if t.Within(u, d - 1) {
      RoundsBound(t, states, events, rounds, r, d - 1, u);
    } else {
      var m, n := Predecessor(t, u, d);
      RoundsBound(t, states, events, rounds, r - 1, d - 1, t.owner[m]);
      RoundSpreads(t, states, events, rounds[r - 1], rounds[r], m, n);
    }
  }

  /** Convergence: after r full rounds every switch at distance d <= r holds exactly d + 1. */
  lemma RoundsConverge(t: Topo, states: seq<State>, events: seq<Event>, rounds: seq<nat>, r: nat, d: nat, u: Switch)
    requires t.Valid() && Run(t, states, events) && states[0] == Initial(t) && Rounds(t, states, events, rounds)
    requires d <= r < |rounds| && t.AtDistance(u, d)
    ensures u in states[rounds[r]].entries && states[rounds[r]].entries[u].hops == d + 1
  {
    RoundsBound(t, states, events, rounds, r, d, u);
    RunIsSafe(t, states, events, rounds[r]);
    NeverTooLow(t, states[rounds[r]], u, d);
  }

  lemma NeverTooLow(t: Topo, s: State, u: Switch, d: nat)
    requires t.Valid() && Safe(t, s) && u in s.entries && t.AtDistance(u, d)
    ensures s.entries[u].hops >= d + 1
  {
    assert SafeEntry(t, s, u);
    var h := s.entries[u].hops - 1;
    if h < d {
      WithinGrows(t, u, h, d - 1);
    }
  }
}
