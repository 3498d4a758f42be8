/** The rendezvous protocol as a state machine: every switch's routing tables and
    rendezvous edges, and the control packets in flight, which may be delayed, lost or
    duplicated. Route entries are safe in every reachable state. */
module Protocol {
  import opened VidBits
  import opened Network
  import opened RouteTable
  import opened RendezvousTable
  import opened Forwarding

  const FIRST_QUERIED := 17
  const LAST_QUERIED := 32

  datatype Body =
    | Publish(neighbor: Vid)
    | Query(bucket: nat)
    | Reply(bucket: nat, gws: seq<Vid>)

  /** at: the interface holding the packet; port: the interface it last arrived on over a
      link, or, before any link, an arbitrary interface of its switch of origin. */
  datatype Packet = Packet(at: Vid, port: Vid, svid: Vid, dvid: Vid, body: Body)

  /** rdv holds the rendezvous edges of each switch. */
  datatype State = State(rt: Tables, rdv: map<nat, set<Edge>>, flying: set<Packet>)

  function TableOf(s: State, x: Vid): Inner {
    if x in s.rt then s.rt[x] else map[]
  }

  function EdgesAt(s: State, id: nat): set<Edge> {
    if id in s.rdv then s.rdv[id] else {}
  }

  /** The reply handler's loop over the gateways from the j-th on: the next hop towards
      each is looked up, and the first gateway's entry is the default. */
  function ApplyReply(t: Inner, x: Vid, k: nat, gws: seq<Vid>, j: nat): Inner
    requires j <= |gws|
    decreases |gws| - j
  {
    if j == |gws| then t else ApplyReply(EnterGateway(t, x, k, gws[j], j == 0), x, k, gws, j + 1)
  }

  function EnterGateway(t: Inner, x: Vid, k: nat, g: Vid, isDefault: bool): Inner {
    var d := Delta(x, g);
    var r := Default(t, d);
    if d > HOST_BITS && r.Via? then Update(t, k, r.nexthop, g, isDefault) else t
  }

  datatype Event =
    | PublishTick(x: Vid, y: Vid, p: Packet)
    | QueryTick(x: Vid, k: nat, p: Packet)
    | Hop(p: Packet)
    | Reaim(p: Packet)
    | HandlePublish(p: Packet)
    | HandleQuery(p: Packet, gws: seq<Vid>, reply: Packet)
    | HandleReply(p: Packet)
    | Lose(p: Packet)
    | ExpireBucket(x: Vid, k: nat)
    | ExpireEdge(id: nat, e: Edge)

  /** A handled or forwarded packet usually leaves the air, but may be duplicated. */
  ghost predicate Flies(s: State, s': State, gone: Packet, out: set<Packet>) {
    s.flying - {gone} + out <= s'.flying <= s.flying + out
  }

  /** The packet has come to the switch that owns the id it is aimed at. */
  predicate Arrived(net: Net, p: Packet) {
    net.SameSwitch(p.at, p.dvid)
  }

  function Moved(net: Net, p: Packet, y: Vid): Packet {
    p.(at := y, port := if net.Beside(p.at, y) then y else p.port)
  }

  ghost predicate Step(net: Net, s: State, e: Event, s': State) {
    match e
    case PublishTick(x, y, p) =>
      var k := Delta(x, y);
      && x in net.sw && y in net.sw && net.Edge(x, y) && k > 0
      && p.at == p.svid == x && net.SameSwitch(x, p.port) && p.dvid == RdvPoint(x, k) && p.body == Publish(y)
      && s' == State(s.rt[x := Update(TableOf(s, x), k, y, x, true)], s.rdv, s.flying + {p})
    case QueryTick(x, k, p) =>
      && x in net.sw && FIRST_QUERIED <= k <= LAST_QUERIED
      && p.at == p.svid == x && net.SameSwitch(x, p.port) && p.dvid == RdvPoint(x, k) && p.body == Query(k)
      && s' == s.(flying := s.flying + {p})
    case Hop(p) =>
      && p in s.flying && Forward(net, s.rt, p.at, p.dvid).To?
      && s'.rt == s.rt && s'.rdv == s.rdv
      && Flies(s, s', p, {Moved(net, p, Forward(net, s.rt, p.at, p.dvid).next)})
    case Reaim(p) =>
      && p in s.flying && Forward(net, s.rt, p.at, p.dvid).Stuck? && Delta(p.at, p.dvid) > HOST_BITS && !p.body.Reply?
      && s'.rt == s.rt && s'.rdv == s.rdv
      && Flies(s, s', p, {p.(dvid := FlipBit(p.dvid, Delta(p.at, p.dvid)))})
    case HandlePublish(p) =>
      && p in s.flying && p.body.Publish? && Arrived(net, p)
      && s'.rt == s.rt && s'.rdv == s.rdv[net.sw[p.at] := EdgesAt(s, net.sw[p.at]) + {Edge(p.svid, p.body.neighbor)}]
      && Flies(s, s', p, {})
    case HandleQuery(p, gws, reply) =>
      && p in s.flying && p.body.Query? && Arrived(net, p)
      && Selection(EdgesAt(s, net.sw[p.at]), p.body.bucket, p.svid, gws)
      && reply.svid == p.port && reply.dvid == p.svid && reply.body == Reply(p.body.bucket, gws)
      && reply.at == (if net.SameSwitch(p.at, p.svid) then p.svid else p.port) && net.SameSwitch(p.at, reply.port)
      && s'.rt == s.rt && s'.rdv == s.rdv
      && Flies(s, s', p, if gws == [] then {} else {reply})
    case HandleReply(p) =>
      && p in s.flying && p.body.Reply? && Arrived(net, p)
      && s'.rt == s.rt[p.dvid := ApplyReply(TableOf(s, p.dvid), p.dvid, p.body.bucket, p.body.gws, 0)]
      && s'.rdv == s.rdv
      && Flies(s, s', p, {})
    case Lose(p) =>
      s' == s.(flying := s.flying - {p})
    case ExpireBucket(x, k) =>
      s' == s.(rt := s.rt[x := Expire(TableOf(s, x), k)]) && x in net.sw
    case ExpireEdge(id, e) =>
      s' == s.(rdv := s.rdv[id := EdgesAt(s, id) - {e}])
  }

  /** The answer starts at the asker's interface if that is here, and else where the query came in. */
  function AnswerPacket(net: Net, p: Packet, gws: seq<Vid>): Packet
    requires p.body.Query?
  {
    Packet(if net.SameSwitch(p.at, p.svid) then p.svid else p.port, p.port, p.port, p.svid, Reply(p.body.bucket, gws))
  }

  lemma AnswerIsStep(net: Net, s: State, p: Packet, gws: seq<Vid>, reply: Packet, s': State)
    requires p in s.flying && p.body.Query? && net.SameSwitch(p.at, p.dvid) && net.SameSwitch(p.at, p.port)
    requires Selection(EdgesAt(s, net.sw[p.at]), p.body.bucket, p.svid, gws)
    requires reply == AnswerPacket(net, p, gws)
    requires s' == State(s.rt, s.rdv, s.flying - {p} + if gws == [] then {} else {reply})
    ensures Step(net, s, HandleQuery(p, gws, reply), s')
  {
  }

  ghost predicate Run(net: Net, states: seq<State>, events: seq<Event>) {
    && |states| == |events| + 1
    && forall i :: 0 <= i < |events| ==> Step(net, states[i], events[i], states[i + 1])
  }

  // ----- route-entry safety

  /** A valid entry of bucket k at x: the next hop is adjacent and no farther than k, and
      the gateway is nearer than k and really has an edge to a node at distance k. */
  ghost predicate SafeSlot(net: Net, x: Vid, k: nat, b: Slot) {
    b.isValid ==>
      && b.nexthop in net.sw && net.Edge(x, b.nexthop) && Delta(x, b.nexthop) <= k
      && net.Gateway(x, k, b.gateway)
  }

  ghost predicate SafeTable(net: Net, x: Vid, t: Inner) {
    && DisciplinedAll(t)
    && forall k, i :: k in t && 0 <= i < MAX_GW_PER_BUCKET ==> SafeSlot(net, x, k, t[k][i])
  }

  ghost predicate SafePacket(net: Net, p: Packet) {
    && p.at in net.sw && p.svid in net.sw && net.SameSwitch(p.at, p.port) && IsSwitch(p.dvid)
    && match p.body {
         case Publish(y) => y in net.sw && net.Edge(p.svid, y)
         case Query(_) => true
         case Reply(k, gws) => p.dvid in net.sw && forall i :: 0 <= i < |gws| ==> net.Gateway(p.dvid, k, gws[i])
       }
  }

  ghost predicate Safe(net: Net, s: State) {
    && (forall x: Vid :: x in s.rt ==> x in net.sw && SafeTable(net, x, s.rt[x]))
    && (forall id, e :: id in s.rdv && e in s.rdv[id] ==>
          e.src in net.sw && e.dest in net.sw && net.Edge(e.src, e.dest))
    && (forall p :: p in s.flying ==> SafePacket(net, p))
  }

  lemma DefaultIsSafe(net: Net, x: Vid, t: Inner, k: nat)
    requires SafeTable(net, x, t) && Default(t, k).Via?
    ensures var r := Default(t, k);
            r.nexthop in net.sw && net.Edge(x, r.nexthop) && Delta(x, r.nexthop) <= k && net.Gateway(x, k, r.gateway)
  {
    var i :| 0 <= i < MAX_GW_PER_BUCKET && t[k][i].isValid && Default(t, k) == Via(t[k][i].nexthop, t[k][i].gateway);
    assert SafeSlot(net, x, k, t[k][i]);
  }

  lemma UpdateIsSafe(net: Net, x: Vid, t: Inner, k: nat, nh: Vid, g: Vid, isDefault: bool)
    requires SafeTable(net, x, t) && SafeSlot(net, x, k, Slot(nh, g, isDefault, true))
    ensures SafeTable(net, x, Update(t, k, nh, g, isDefault)) && SafeTable(net, x, Expire(t, k))
  {
    UpdateKeepsDiscipline(t, k, nh, g, isDefault);
  }

  lemma {:induction false} ReplyIsSafe(net: Net, x: Vid, t: Inner, k: nat, gws: seq<Vid>, j: nat)
    requires SafeTable(net, x, t) && j <= |gws|
    requires forall i :: 0 <= i < |gws| ==> net.Gateway(x, k, gws[i])
    ensures SafeTable(net, x, ApplyReply(t, x, k, gws, j))
    decreases |gws| - j
  {
    if j < |gws| {
      GatewayIsSafe(net, x, t, k, gws[j], j == 0);
      ReplyIsSafe(net, x, EnterGateway(t, x, k, gws[j], j == 0), k, gws, j + 1);
    }
  }

  lemma GatewayIsSafe(net: Net, x: Vid, t: Inner, k: nat, g: Vid, isDefault: bool)
    requires SafeTable(net, x, t) && net.Gateway(x, k, g)
    ensures SafeTable(net, x, EnterGateway(t, x, k, g, isDefault))
  {
    var d := Delta(x, g);
    var r := Default(t, d);
    if d > HOST_BITS && r.Via? {
      DefaultIsSafe(net, x, t, d);
      NearerThanLevel(net, x, k, g);
      UpdateIsSafe(net, x, t, k, r.nexthop, g, isDefault);
    }
  }

  lemma NearerThanLevel(net: Net, x: Vid, k: nat, g: Vid)
    requires net.Gateway(x, k, g)
    ensures Delta(x, g) < k
  {
  }

  lemma SelectionIsSafe(net: Net, s: State, id: nat, k: nat, x: Vid, gws: seq<Vid>)
    requires Safe(net, s) && Selection(EdgesAt(s, id), k, x, gws)
    ensures forall i :: 0 <= i < |gws| ==> net.Gateway(x, k, gws[i])
  {
    forall i | 0 <= i < |gws|
      ensures net.Gateway(x, k, gws[i])
    {
      var e :| e in EdgesAt(s, id) && Qualifies(e, k, x) && e.src == gws[i];
      assert net.GatewayVia(x, k, e.src, e.dest);
    }
  }

  lemma HopIsSafe(net: Net, s: State, p: Packet)
    requires net.Valid() && Safe(net, s) && p in s.flying && Forward(net, s.rt, p.at, p.dvid).To?
    ensures SafePacket(net, Moved(net, p, Forward(net, s.rt, p.at, p.dvid).next))
  {
    var y := Forward(net, s.rt, p.at, p.dvid).next;
    assert SafePacket(net, p);
    if net.Beside(p.at, y) {
      var l :| l in net.links && net.SameSwitch(p.at, l.0) && l.1 == y;
      assert y in net.sw;
    }
  }

  lemma TickIsSafe(net: Net, s: State, x: Vid, y: Vid)
    requires net.Valid() && Safe(net, s) && x in net.sw && y in net.sw && net.Edge(x, y) && Delta(x, y) > 0
    ensures SafeTable(net, x, Update(TableOf(s, x), Delta(x, y), y, x, true))
  {
    var k := Delta(x, y);
    DeltaZero(x, x);
    assert net.GatewayVia(x, k, x, y);
    assert SafeTable(net, x, TableOf(s, x));
    UpdateIsSafe(net, x, TableOf(s, x), k, y, x, true);
  }

  lemma PublishPacketIsSafe(net: Net, s: State, x: Vid, y: Vid, p: Packet, s': State)
    requires net.Valid() && Step(net, s, PublishTick(x, y, p), s')
    ensures SafePacket(net, p)
  {
    SwitchDeltaZero(x, y);
    DeltaZero(x, y);
    RdvPointIsSwitch(x, Delta(x, y));
  }

  lemma ExpireIsSafe(net: Net, x: Vid, t: Inner, k: nat)
    requires SafeTable(net, x, t)
    ensures SafeTable(net, x, Expire(t, k))
  {
    if k in t {
      DisciplineKept(t[k], x, x);
    }
  }

  /** A step that leaves tables and edges alone is safe if what it puts in the air is. */
  lemma FlightIsSafe(net: Net, s: State, s': State, gone: Packet, out: set<Packet>)
    requires Safe(net, s) && s'.rt == s.rt && s'.rdv == s.rdv && Flies(s, s', gone, out)
    requires forall q :: q in out ==> SafePacket(net, q)
    ensures Safe(net, s')
  {
  }

  lemma ReplyPacketIsSafe(net: Net, s: State, p: Packet, gws: seq<Vid>, reply: Packet, s': State)
    requires net.Valid() && Safe(net, s) && Step(net, s, HandleQuery(p, gws, reply), s')
    ensures SafePacket(net, reply)
  {
    assert SafePacket(net, p);
    SelectionIsSafe(net, s, net.sw[p.at], p.body.bucket, p.svid, gws);
  }

  lemma TableChangeIsSafe(net: Net, s: State, s': State, x: Vid, t: Inner, gone: Packet, out: set<Packet>)
    requires Safe(net, s) && x in net.sw && SafeTable(net, x, t)
    requires s'.rt == s.rt[x := t] && s'.rdv == s.rdv && Flies(s, s', gone, out)
    requires forall q :: q in out ==> SafePacket(net, q)
    ensures Safe(net, s')
  {
  }

  lemma EdgeChangeIsSafe(net: Net, s: State, s': State, id: nat, edges: set<Edge>, gone: Packet)
    requires Safe(net, s) && s'.rt == s.rt && s'.rdv == s.rdv[id := edges] && Flies(s, s', gone, {})
    requires forall e :: e in edges ==> e.src in net.sw && e.dest in net.sw && net.Edge(e.src, e.dest)
    ensures Safe(net, s')
  {
  }

  lemma MoveIsSafe(net: Net, s: State, e: Event, s': State)
    requires net.Valid() && Safe(net, s) && Step(net, s, e, s') && (e.Hop? || e.Reaim? || e.Lose? || e.QueryTick?)
    ensures Safe(net, s')
  {
    match e
    case QueryTick(x, k, p) =>
      RdvPointIsSwitch(x, k);
      FlightIsSafe(net, s, s', p, {p});
    case Hop(p) =>
      HopIsSafe(net, s, p);
      FlightIsSafe(net, s, s', p, {Moved(net, p, Forward(net, s.rt, p.at, p.dvid).next)});
    case Reaim(p) =>
      assert SafePacket(net, p);
      FlipIsSwitch(p.dvid, Delta(p.at, p.dvid));
      FlightIsSafe(net, s, s', p, {p.(dvid := FlipBit(p.dvid, Delta(p.at, p.dvid)))});
    case Lose(p) =>
      FlightIsSafe(net, s, s', p, {});
  }

  lemma TableStepIsSafe(net: Net, s: State, e: Event, s': State)
    requires net.Valid() && Safe(net, s) && Step(net, s, e, s') && (e.PublishTick? || e.HandleReply? || e.ExpireBucket?)
    ensures Safe(net, s')
  {
    match e
    case PublishTick(x, y, p) =>
      TickIsSafe(net, s, x, y);
      PublishPacketIsSafe(net, s, x, y, p, s');
      TableChangeIsSafe(net, s, s', x, Update(TableOf(s, x), Delta(x, y), y, x, true), p, {p});
    case HandleReply(p) =>
      ReplyStepIsSafe(net, s, p, s');
    case ExpireBucket(x, k) =>
      ExpireIsSafe(net, x, TableOf(s, x), k);
  }

  lemma ReplyStepIsSafe(net: Net, s: State, p: Packet, s': State)
    requires net.Valid() && Safe(net, s) && Step(net, s, HandleReply(p), s')
    ensures Safe(net, s')
  {
    assert SafePacket(net, p);
    var t := ApplyReply(TableOf(s, p.dvid), p.dvid, p.body.bucket, p.body.gws, 0);
    ReplyIsSafe(net, p.dvid, TableOf(s, p.dvid), p.body.bucket, p.body.gws, 0);
    TableChangeIsSafe(net, s, s', p.dvid, t, p, {});
  }

  lemma RendezvousStepIsSafe(net: Net, s: State, e: Event, s': State)
    requires net.Valid() && Safe(net, s) && Step(net, s, e, s') && (e.HandlePublish? || e.HandleQuery?)
    ensures Safe(net, s')
  {
    match e
    case HandlePublish(p) =>
      assert SafePacket(net, p);
      EdgeChangeIsSafe(net, s, s', net.sw[p.at], EdgesAt(s, net.sw[p.at]) + {Edge(p.svid, p.body.neighbor)}, p);
    case HandleQuery(p, gws, reply) =>
      ReplyPacketIsSafe(net, s, p, gws, reply, s');
      FlightIsSafe(net, s, s', p, if gws == [] then {} else {reply});
  }

  lemma EdgeExpiryIsSafe(net: Net, s: State, e: Event, s': State)
    requires net.Valid() && Safe(net, s) && Step(net, s, e, s') && e.ExpireEdge?
    ensures Safe(net, s')
  {
  }

  /** Every step, expiry and loss included, keeps every route entry safe. */
  lemma StepIsSafe(net: Net, s: State, e: Event, s': State)
    requires net.Valid() && Safe(net, s) && Step(net, s, e, s')
    ensures Safe(net, s')
  {
    if e.PublishTick? || e.HandleReply? || e.ExpireBucket? {
      TableStepIsSafe(net, s, e, s');
    } else if e.HandlePublish? || e.HandleQuery? {
      RendezvousStepIsSafe(net, s, e, s');
    } else if e.ExpireEdge? {
      EdgeExpiryIsSafe(net, s, e, s');
    } else {
      MoveIsSafe(net, s, e, s');
    }
  }

  lemma {:induction false} StaysSafe(net: Net, states: seq<State>, events: seq<Event>, i: nat)
    requires net.Valid() && Run(net, states, events) && i < |states| && Safe(net, states[0])
    ensures Safe(net, states[i])
  {
    if i > 0 {
      StaysSafe(net, states, events, i - 1);
      StepIsSafe(net, states[i - 1], events[i - 1], states[i]);
    }
  }

  /** Route-entry safety over every run from the empty tables. */
  lemma RunIsSafe(net: Net, states: seq<State>, events: seq<Event>, i: nat)
    requires net.Valid() && Run(net, states, events) && i < |states|
    requires states[0] == State(map[], map[], {})
    ensures Safe(net, states[i])
  {
    StaysSafe(net, states, events, i);
  }
}
