/** How the tables fill, one level at a time. Fix a subtree of height k-1 whose buckets
    below k are complete. Its level-k control packets never leave it; once every gateway's
    edge has been received at the one rendezvous node, each query is answered with a
    closest gateway, each answer completes bucket k, and no later step undoes it. */
module Construction {
  import opened VidBits
  import opened Network
  import opened RouteTable
  import opened RendezvousTable
  import opened Forwarding
  import opened Protocol

  /** No table or edge expires. */
  predicate Lasting(e: Event) {
    !e.ExpireBucket? && !e.ExpireEdge?
  }

  predicate Member(net: Net, o: Vid, k: nat, x: Vid) {
    x in net.sw && Delta(o, x) < k
  }

  /** The interface all level-k control packets of o's subtree make for. */
  ghost predicate Rendezvous(net: Net, o: Vid, k: nat, r: Vid) {
    1 <= k <= VID_BITS && Nearest(net, r, RdvPoint(o, k))
  }

  /** A publish or query of level k sent from within the subtree. */
  predicate Request(net: Net, o: Vid, k: nat, p: Packet) {
    Member(net, o, k, p.svid) &&
    match p.body
    case Publish(y) => Delta(p.svid, y) == k
    case Query(j) => j == k
    case Reply(_, _) => false
  }

  predicate Answer(net: Net, o: Vid, k: nat, p: Packet) {
    p.body.Reply? && p.body.bucket == k && Member(net, o, k, p.dvid)
  }

  /** The packet is inside the subtree, aimed inside it, and its answer would start there. */
  predicate Confined(net: Net, o: Vid, k: nat, p: Packet) {
    && Member(net, o, k, p.at) && Delta(o, p.dvid) < k
    && (net.SameSwitch(p.at, p.svid) || Member(net, o, k, p.port))
  }

  /** Every level-k control packet of the subtree is inside it; requests are still aimed
      at a point to which the rendezvous node is nearest. */
  ghost predicate AllConfined(net: Net, o: Vid, k: nat, r: Vid, s: State) {
    forall p :: p in s.flying ==>
      && (Request(net, o, k, p) ==> Confined(net, o, k, p) && Nearest(net, r, p.dvid))
      && (Answer(net, o, k, p) ==> Member(net, o, k, p.at))
  }

  // ----- the packets of level k stay inside, and need only buckets below k

  lemma ConfinedStep(net: Net, o: Vid, k: nat, s: State, p: Packet)
    requires net.Valid() && Safe(net, s) && CompleteBelow(net, s.rt, o, k) && k >= 1
    requires p in s.flying && Member(net, o, k, p.at) && Delta(o, p.dvid) < k && Delta(p.at, p.dvid) > HOST_BITS
    ensures Delta(p.at, p.dvid) < k
    ensures var q := Advance(net, s.rt, Pos(p.at, p.dvid));
            && Member(net, o, k, q.at) && Delta(o, q.dest) < k
            && forall v :: Nearest(net, v, p.dvid) <==> Nearest(net, v, q.dest)
  {
    AdvanceInside(net, s.rt, o, k, Pos(p.at, p.dvid));
  }

  lemma MovePacket(net: Net, o: Vid, k: nat, r: Vid, s: State, e: Event, p: Packet, q: Packet)
    requires net.Valid() && Safe(net, s) && CompleteBelow(net, s.rt, o, k) && Rendezvous(net, o, k, r)
    requires AllConfined(net, o, k, r, s) && p in s.flying
    requires || (e == Hop(p) && Forward(net, s.rt, p.at, p.dvid).To?
                 && q == Moved(net, p, Forward(net, s.rt, p.at, p.dvid).next))
             || (e == Reaim(p) && Forward(net, s.rt, p.at, p.dvid).Stuck?
                 && Delta(p.at, p.dvid) > HOST_BITS && !p.body.Reply?
                 && q == p.(dvid := FlipBit(p.dvid, Delta(p.at, p.dvid))))
    ensures Request(net, o, k, q) ==> Confined(net, o, k, q) && Nearest(net, r, q.dvid)
    ensures Answer(net, o, k, q) ==> Member(net, o, k, q.at)
  {
    assert SafePacket(net, p);
    if Request(net, o, k, q) || Answer(net, o, k, q) {
      assert Request(net, o, k, p) || Answer(net, o, k, p);
      ConfinedStep(net, o, k, s, p);
      if e.Hop? {
        var y := Forward(net, s.rt, p.at, p.dvid).next;
        if !net.Beside(p.at, y) {
          assert net.SameSwitch(p.at, y);
        }
      }
    }
  }

  /** Where a request is handled: at the rendezvous node's switch. */
  lemma HandledAtRendezvous(net: Net, o: Vid, k: nat, r: Vid, s: State, p: Packet)
    requires net.Valid() && Rendezvous(net, o, k, r) && AllConfined(net, o, k, r, s)
    requires p in s.flying && Request(net, o, k, p) && Arrived(net, p)
    ensures p.dvid == r && net.sw[p.at] == net.sw[r]
  {
    DeltaZero(p.dvid, p.dvid);
    ArrivedIsNearest(net, p.dvid, p.dvid);
    NearestUnique(net, r, p.dvid, p.dvid);
  }

  lemma SentInside(net: Net, o: Vid, k: nat, r: Vid, p: Packet)
    requires net.Valid() && Rendezvous(net, o, k, r) && Request(net, o, k, p)
    requires p.at == p.svid && p.dvid == RdvPoint(p.svid, k)
    ensures Confined(net, o, k, p) && Nearest(net, r, p.dvid)
  {
    RdvPointShared(o, p.svid, k);
    RdvPointNear(o, k);
  }

  /** What AllConfined says of one packet. */
  ghost predicate Kept(net: Net, o: Vid, k: nat, r: Vid, p: Packet) {
    && (Request(net, o, k, p) ==> Confined(net, o, k, p) && Nearest(net, r, p.dvid))
    && (Answer(net, o, k, p) ==> Member(net, o, k, p.at))
  }

  lemma FlightConfines(net: Net, o: Vid, k: nat, r: Vid, s: State, s': State, out: set<Packet>)
    requires AllConfined(net, o, k, r, s) && s'.flying <= s.flying + out
    requires forall q {:trigger Kept(net, o, k, r, q)} :: q in out ==> Kept(net, o, k, r, q)
    ensures AllConfined(net, o, k, r, s')
  {
    forall p | p in s'.flying
      ensures Kept(net, o, k, r, p)
    {
    }
  }

  /** Locality: with the buckets below k complete in the subtree, no step lets a level-k
      control packet of the subtree leave it. */
  lemma StepConfines(net: Net, o: Vid, k: nat, r: Vid, s: State, e: Event, s': State)
    requires net.Valid() && Safe(net, s) && CompleteBelow(net, s.rt, o, k) && Rendezvous(net, o, k, r)
    requires AllConfined(net, o, k, r, s) && Step(net, s, e, s')
    ensures AllConfined(net, o, k, r, s')
  {
    if e.Hop? || e.Reaim? {
      MoveConfines(net, o, k, r, s, e, s');
    } else if e.PublishTick? || e.QueryTick? {
      TickConfines(net, o, k, r, s, e, s');
    } else {
      HandlingConfines(net, o, k, r, s, e, s');
    }
  }

  lemma MoveConfines(net: Net, o: Vid, k: nat, r: Vid, s: State, e: Event, s': State)
    requires net.Valid() && Safe(net, s) && CompleteBelow(net, s.rt, o, k) && Rendezvous(net, o, k, r)
    requires AllConfined(net, o, k, r, s) && Step(net, s, e, s') && (e.Hop? || e.Reaim?)
    ensures AllConfined(net, o, k, r, s')
  {
    var p := e.p;
    var q := if e.Hop? then Moved(net, p, Forward(net, s.rt, p.at, p.dvid).next)
             else p.(dvid := FlipBit(p.dvid, Delta(p.at, p.dvid)));
    MovePacket(net, o, k, r, s, e, p, q);
    FlightConfines(net, o, k, r, s, s', {q});
  }

  lemma TickConfines(net: Net, o: Vid, k: nat, r: Vid, s: State, e: Event, s': State)
    requires net.Valid() && Rendezvous(net, o, k, r)
    requires AllConfined(net, o, k, r, s) && Step(net, s, e, s') && (e.PublishTick? || e.QueryTick?)
    ensures AllConfined(net, o, k, r, s')
  {
    var p := e.p;
    if Request(net, o, k, p) {
      SentInside(net, o, k, r, p);
    }
    FlightConfines(net, o, k, r, s, s', {p});
  }

  lemma HandlingConfines(net: Net, o: Vid, k: nat, r: Vid, s: State, e: Event, s': State)
    requires net.Valid() && Safe(net, s)
    requires AllConfined(net, o, k, r, s) && Step(net, s, e, s')
    requires !e.Hop? && !e.Reaim? && !e.PublishTick? && !e.QueryTick?
    ensures AllConfined(net, o, k, r, s')
  {
    if e.HandleQuery? {
      AnswerStartsInside(net, o, k, r, s, e.p, e.gws, e.reply, s');
      FlightConfines(net, o, k, r, s, s', {e.reply});
    } else {
      FlightConfines(net, o, k, r, s, s', {});
    }
  }

  lemma AnswerStartsInside(net: Net, o: Vid, k: nat, r: Vid, s: State, p: Packet, gws: seq<Vid>, reply: Packet,
                           s': State)
    requires net.Valid() && Safe(net, s) && AllConfined(net, o, k, r, s)
    requires Step(net, s, HandleQuery(p, gws, reply), s')
    ensures Answer(net, o, k, reply) ==> Member(net, o, k, reply.at)
  {
    assert SafePacket(net, p);
    if Answer(net, o, k, reply) {
      assert Request(net, o, k, p);
    }
  }

  // ----- good answers and completed buckets

  /** The rendezvous node has received every level-k gateway edge of the subtree. */
  ghost predicate Full(net: Net, o: Vid, k: nat, r: Vid, s: State) {
    r in net.sw && forall g: Vid, w: Vid :: net.GatewayVia(o, k, g, w) ==> Edge(g, w) in EdgesAt(s, net.sw[r])
  }

  /** The answer names a closest gateway first. */
  ghost predicate GoodAnswer(net: Net, k: nat, p: Packet) {
    p.body.Reply? && p.body.gws != [] && net.Closest(p.dvid, k, p.body.gws[0])
  }

  /** Every level-k answer in flight to the subtree is good. */
  ghost predicate AllGood(net: Net, o: Vid, k: nat, s: State) {
    forall p :: p in s.flying && Answer(net, o, k, p) ==> GoodAnswer(net, k, p)
  }

  /** Level k is settled for the subtree: edges received, packets confined, answers good. */
  ghost predicate Ready(net: Net, o: Vid, k: nat, r: Vid, s: State) {
    && Rendezvous(net, o, k, r)
    && Full(net, o, k, r, s)
    && AllConfined(net, o, k, r, s)
    && AllGood(net, o, k, s)
  }

  lemma GatewayForMember(net: Net, o: Vid, k: nat, x: Vid, g: Vid, w: Vid)
    requires Member(net, o, k, x)
    ensures net.GatewayVia(o, k, g, w) <==> net.GatewayVia(x, k, g, w)
  {
    DeltaSym(o, x);
    DeltaUltra(x, o, w);
    DeltaUltra(o, x, w);
    DeltaUltra(x, o, g);
    DeltaUltra(o, x, g);
  }

  lemma SelectedIsClosest(net: Net, o: Vid, k: nat, r: Vid, s: State, x: Vid, gws: seq<Vid>)
    requires net.Valid() && Safe(net, s) && Full(net, o, k, r, s) && Member(net, o, k, x)
    requires Selection(EdgesAt(s, net.sw[r]), k, x, gws) && gws != []
    ensures net.Closest(x, k, gws[0])
  {
    SelectionIsSafe(net, s, net.sw[r], k, x, gws);
    forall h: Vid | net.Gateway(x, k, h)
      ensures Delta(x, gws[0]) <= Delta(x, h)
    {
      var w: Vid :| net.GatewayVia(x, k, h, w);
      GatewayForMember(net, o, k, x, h, w);
      SelectionClosest(EdgesAt(s, net.sw[r]), k, x, gws, Edge(h, w));
    }
  }

  /** A query handled at a full rendezvous node is answered, unless the count of edges
      wraps to zero, and answered with a closest gateway. */
  lemma QueryAnswered(net: Net, o: Vid, k: nat, r: Vid, s: State, p: Packet, gws: seq<Vid>, reply: Packet, s': State)
    requires net.Valid() && Safe(net, s) && Ready(net, o, k, r, s)
    requires Step(net, s, HandleQuery(p, gws, reply), s') && Request(net, o, k, p)
    ensures gws != [] ==> reply in s'.flying && GoodAnswer(net, k, reply) && Answer(net, o, k, reply)
    ensures gws == [] <==> |Qualifying(EdgesAt(s, net.sw[r]), k, p.svid)| % 256 == 0
  {
    HandledAtRendezvous(net, o, k, r, s, p);
    if gws != [] {
      SelectedIsClosest(net, o, k, r, s, p.svid, gws);
    }
  }

  lemma StepKeepsGood(net: Net, o: Vid, k: nat, r: Vid, s: State, e: Event, s': State)
    requires net.Valid() && Safe(net, s) && Ready(net, o, k, r, s) && Step(net, s, e, s')
    ensures AllGood(net, o, k, s')
  {
    match e
    case HandleQuery(p, gws, reply) =>
      if gws != [] && Answer(net, o, k, reply) {
        assert Request(net, o, k, p);
        QueryAnswered(net, o, k, r, s, p, gws, reply, s');
      }
    case Hop(p) =>
      var q := Moved(net, p, Forward(net, s.rt, p.at, p.dvid).next);
      assert GoodAnswer(net, k, p) <==> GoodAnswer(net, k, q);
    case _ =>
  }

  lemma StepKeepsFull(net: Net, o: Vid, k: nat, r: Vid, s: State, e: Event, s': State)
    requires Full(net, o, k, r, s) && Step(net, s, e, s') && Lasting(e)
    ensures Full(net, o, k, r, s')
  {
  }

  /** Once level k is settled it stays settled, for as long as nothing expires. */
  lemma StepKeepsReady(net: Net, o: Vid, k: nat, r: Vid, s: State, e: Event, s': State)
    requires net.Valid() && Safe(net, s) && CompleteBelow(net, s.rt, o, k)
    requires Ready(net, o, k, r, s) && Step(net, s, e, s') && Lasting(e)
    ensures Ready(net, o, k, r, s')
  {
    StepConfines(net, o, k, r, s, e, s');
    StepKeepsGood(net, o, k, r, s, e, s');
    StepKeepsFull(net, o, k, r, s, e, s');
  }

  // ----- what an answer does to the table

  lemma GatewayDefaults(t: Inner, x: Vid, k: nat, g: Vid, isDefault: bool)
    requires DisciplinedAll(t)
    ensures var t' := EnterGateway(t, x, k, g, isDefault);
            var r := Default(t, Delta(x, g));
            && DisciplinedAll(t')
            && forall i :: Default(t', i) ==
                 if isDefault && i == k && Delta(x, g) > HOST_BITS && r.Via? then Via(r.nexthop, g) else Default(t, i)
  {
    var r := Default(t, Delta(x, g));
    if Delta(x, g) > HOST_BITS && r.Via? {
      UpdateKeepsDiscipline(t, k, r.nexthop, g, isDefault);
    }
  }

  lemma {:induction false} LaterGateways(t: Inner, x: Vid, k: nat, gws: seq<Vid>, j: nat)
    requires DisciplinedAll(t) && 0 < j <= |gws|
    ensures forall i :: Default(ApplyReply(t, x, k, gws, j), i) == Default(t, i)
    decreases |gws| - j
  {
    if j < |gws| {
      GatewayDefaults(t, x, k, gws[j], false);
      LaterGateways(EnterGateway(t, x, k, gws[j], false), x, k, gws, j + 1);
    }
  }

  /** Only the first gateway of an answer can change a default, and only that of bucket k. */
  lemma AnswerDefaults(t: Inner, x: Vid, k: nat, gws: seq<Vid>)
    requires DisciplinedAll(t) && gws != []
    ensures var t' := ApplyReply(t, x, k, gws, 0);
            var r := Default(t, Delta(x, gws[0]));
            var usable := Delta(x, gws[0]) > HOST_BITS && r.Via?;
            forall i :: Default(t', i) == if i == k && usable then Via(r.nexthop, gws[0]) else Default(t, i)
  {
    GatewayDefaults(t, x, k, gws[0], true);
    LaterGateways(EnterGateway(t, x, k, gws[0], true), x, k, gws, 1);
  }

  lemma StepDefaults(net: Net, s: State, e: Event, s': State, x: Vid, j: nat)
    requires net.Valid() && Safe(net, s) && Step(net, s, e, s') && Lasting(e)
    ensures DefaultAt(s'.rt, x, j) == DefaultAt(s.rt, x, j) || SetByTick(e, s', x, j) || SetByReply(e, s, s', x, j)
  {
    if e.PublishTick? {
      if e.x == x {
        TickDefaults(s, x, e.y, j);
      }
    } else if e.HandleReply? {
      ReplyDefaults(net, s, e, s', x, j);
    }
  }

  predicate SetByTick(e: Event, s': State, x: Vid, j: nat) {
    e.PublishTick? && e.x == x && Delta(x, e.y) == j && DefaultAt(s'.rt, x, j) == Via(e.y, x)
  }

  /** The next hop of a reply's bucket is the one towards the first gateway it names. */
  predicate SetByReply(e: Event, s: State, s': State, x: Vid, j: nat) {
    && e.HandleReply? && e.p.dvid == x && e.p.body.Reply? && e.p.body.bucket == j && e.p.body.gws != []
    && var g := e.p.body.gws[0];
       var r := DefaultAt(s.rt, x, Delta(x, g));
       Delta(x, g) > HOST_BITS && r.Via? && DefaultAt(s'.rt, x, j) == Via(r.nexthop, g)
  }

  lemma ReplyDefaults(net: Net, s: State, e: Event, s': State, x: Vid, j: nat)
    requires net.Valid() && Safe(net, s) && Step(net, s, e, s') && e.HandleReply?
    ensures DefaultAt(s'.rt, x, j) == DefaultAt(s.rt, x, j) || SetByReply(e, s, s', x, j)
  {
    if e.p.dvid == x && e.p.body.gws != [] {
      AnswerDefaults(TableOf(s, x), x, e.p.body.bucket, e.p.body.gws);
    }
  }

  lemma TickDefaults(s: State, x: Vid, y: Vid, j: nat)
    requires DisciplinedAll(TableOf(s, x))
    ensures Default(Update(TableOf(s, x), Delta(x, y), y, x, true), j) ==
            if j == Delta(x, y) then Via(y, x) else Default(TableOf(s, x), j)
  {
    UpdateKeepsDiscipline(TableOf(s, x), Delta(x, y), y, x, true);
  }

  /** A good answer makes bucket k complete, for a member that is not itself a gateway. */
  lemma AnswerCompletes(net: Net, o: Vid, k: nat, s: State, p: Packet, s': State)
    requires net.Valid() && Safe(net, s) && CompleteBelow(net, s.rt, o, k)
    requires Step(net, s, HandleReply(p), s') && Answer(net, o, k, p) && GoodAnswer(net, k, p)
    requires p.body.gws[0] != p.dvid
    ensures CompleteAt(net, s'.rt, p.dvid, k)
  {
    var x, g := p.dvid, p.body.gws[0];
    var w: Vid :| net.GatewayVia(x, k, g, w);
    DeltaZero(x, g);
    SwitchDeltaZero(x, g);
    var j := Delta(x, g);
    assert net.Inhabited(x, j);
    assert CompleteAt(net, s.rt, x, j);
    assert net.NextHop(x, j, DefaultAt(s.rt, x, j).nexthop);
    assert net.NextHop(x, k, DefaultAt(s.rt, x, j).nexthop);
    assert net.Inhabited(x, k);
    AnswerDefaults(TableOf(s, x), x, k, p.body.gws);
  }

  lemma TickCompletes(net: Net, s: State, x: Vid, y: Vid, p: Packet, s': State)
    requires net.Valid() && Safe(net, s) && Step(net, s, PublishTick(x, y, p), s')
    ensures CompleteAt(net, s'.rt, x, Delta(x, y))
  {
    UpdateKeepsDiscipline(TableOf(s, x), Delta(x, y), y, x, true);
    assert net.NextHop(x, Delta(x, y), y);
    assert net.Inhabited(x, Delta(x, y));
  }

  lemma PresentMeansInhabited(net: Net, s: State, x: Vid, k: nat)
    requires Safe(net, s) && DefaultAt(s.rt, x, k).Via?
    ensures net.Inhabited(x, k)
  {
    DefaultIsSafe(net, x, s.rt[x], k);
    var w: Vid :| net.GatewayVia(x, k, DefaultAt(s.rt, x, k).gateway, w);
  }

  /** A completed bucket stays complete while level k is settled and nothing expires. */
  lemma StepKeepsComplete(net: Net, o: Vid, k: nat, r: Vid, s: State, e: Event, s': State, x: Vid)
    requires net.Valid() && Safe(net, s) && CompleteBelow(net, s.rt, o, k) && Ready(net, o, k, r, s)
    requires Step(net, s, e, s') && Lasting(e) && Member(net, o, k, x)
    requires CompleteAt(net, s.rt, x, k)
    ensures CompleteAt(net, s'.rt, x, k)
  {
    StepDefaults(net, s, e, s', x, k);
    if DefaultAt(s'.rt, x, k) != DefaultAt(s.rt, x, k) {
      if e.PublishTick? {
        TickCompletes(net, s, x, e.y, e.p, s');
      } else {
        DeltaZero(x, x);
        AnswerCompletes(net, o, k, s, e.p, s');
      }
    }
  }

  // ----- levels combined, within one subtree

  ghost predicate Settled(net: Net, o: Vid, j: nat, s: State) {
    exists r: Vid :: Ready(net, o, j, r, s)
  }

  ghost predicate StableAt(net: Net, o: Vid, j: nat, s: State) {
    CompleteAt(net, s.rt, o, j) && Settled(net, o, j, s)
  }

  /** Within o's subtree of height k-1 every level below k is settled and complete. Nothing is
      said of the rest of the network. */
  ghost predicate StableIn(net: Net, o: Vid, k: nat, s: State) {
    forall x: Vid, j: nat {:trigger StableAt(net, x, j, s)} ::
      Member(net, o, k, x) && HOST_BITS < j < k ==> StableAt(net, x, j, s)
  }

  lemma StableIsComplete(net: Net, o: Vid, k: nat, s: State)
    requires StableIn(net, o, k, s)
    ensures CompleteBelow(net, s.rt, o, k)
  {
    forall x: Vid, i: nat | x in net.sw && Delta(o, x) < k && HOST_BITS < i < k
      ensures CompleteAt(net, s.rt, x, i)
    {
      assert StableAt(net, x, i, s);
    }
  }

  /** The subtrees within a stable one are stable. */
  lemma StableWithin(net: Net, o: Vid, k: nat, s: State, x: Vid, j: nat)
    requires StableIn(net, o, k, s) && Delta(o, x) < k && j <= k
    ensures StableIn(net, x, j, s)
  {
    forall y: Vid, i: nat | Member(net, x, j, y) && HOST_BITS < i < j
      ensures StableAt(net, y, i, s)
    {
      DeltaUltra(o, x, y);
    }
  }

  /** What is stable within a subtree stays so with every step that expires nothing, wherever
      in the network the step is taken. */
  lemma StepKeepsStable(net: Net, o: Vid, k: nat, s: State, e: Event, s': State)
    requires net.Valid() && Safe(net, s) && StableIn(net, o, k, s) && Step(net, s, e, s') && Lasting(e)
    ensures StableIn(net, o, k, s')
  {
    forall x: Vid, j: nat | Member(net, o, k, x) && HOST_BITS < j < k
      ensures StableAt(net, x, j, s')
    {
      StableWithin(net, o, k, s, x, j);
      StableIsComplete(net, x, j, s);
      assert StableAt(net, x, j, s);
      var r: Vid :| Ready(net, x, j, r, s);
      DeltaZero(x, x);
      StepKeepsReady(net, x, j, r, s, e, s');
      StepKeepsComplete(net, x, j, r, s, e, s', x);
    }
  }

  /** The members of a subtree settle together. */
  lemma ReadyShared(net: Net, o: Vid, k: nat, r: Vid, s: State, x: Vid)
    requires Ready(net, o, k, r, s) && Member(net, o, k, x)
    ensures Ready(net, x, k, r, s)
  {
    RdvPointShared(o, x, k);
    forall y: Vid
      ensures Member(net, o, k, y) <==> Member(net, x, k, y)
      ensures Delta(o, y) < k <==> Delta(x, y) < k
    {
      DeltaSym(o, x);
      DeltaUltra(o, x, y);
      DeltaUltra(x, o, y);
    }
    forall g: Vid, w: Vid | net.GatewayVia(x, k, g, w)
      ensures Edge(g, w) in EdgesAt(s, net.sw[r])
    {
      GatewayForMember(net, o, k, x, g, w);
    }
    forall p | p in s.flying
      ensures Kept(net, x, k, r, p)
      ensures Answer(net, x, k, p) ==> GoodAnswer(net, k, p)
    {
      assert Kept(net, o, k, r, p);
    }
  }
}
