/** The two elements that run the control protocol at one switch: the handler of control
    packets, and the periodic timer that publishes edges and sends queries. */
module ControlElements {
  import opened VidBits
  import opened InterfaceTable
  import opened RouteTable
  import opened RendezvousTable
  import opened Network
  import opened Protocol
  import opened ReplyRoutes
  import opened Levels
  import opened Timers
  import RP = RoutePacket

  class ProcessRdv {
    const routes: RouteTable
    const rdvs: RendezvousTable
    const interfaces: InterfaceTable

    constructor (routes: RouteTable, rdvs: RendezvousTable, interfaces: InterfaceTable)
      requires routes.interfaces == interfaces
      ensures this.routes == routes && this.rdvs == rdvs && this.interfaces == interfaces
    {
      this.routes, this.rdvs, this.interfaces := routes, rdvs, interfaces;
    }

    method HandlePublish(svid: Vid, neighbor: Vid)
      modifies rdvs
      ensures rdvs.rdvedges == old(rdvs.rdvedges) + {Edge(svid, neighbor)}
    {
      rdvs.UpdateEntry(svid, neighbor);
    }

    /** The gateways to put in the answer; an empty list means that none is sent. */
    method HandleQuery(svid: Vid, k: nat) returns (gws: seq<Vid>)
      ensures Selection(rdvs.rdvedges, k, svid, gws)
    {
      gws := rdvs.GetRdvPoint(k, svid);
    }

    /** The loop over the answer's gateways does to the addressee's table what the protocol
        model says, and touches no other interface's table. */
    method HandleReply(dvid: Vid, k: nat, gws: seq<Vid>)
      requires routes.Valid() && routes.interfaces == interfaces && dvid in interfaces.interfaces
      modifies routes
      ensures routes.Valid() && routes.entrytouse == old(routes.entrytouse)
      ensures var id := interfaces.interfaces[dvid];
              && routes.InnerOf(id) == ApplyReply(old(routes.InnerOf(id)), dvid, k, gws, 0)
              && forall i :: i != id ==> routes.InnerOf(i) == old(routes.InnerOf(i))
      ensures var id := interfaces.interfaces[dvid];
              Answers(old(routes.InnerOf(id)), dvid, k, gws) ==>
                RoutesOf(routes.InnerOf(id), k) == RoutesTo(old(routes.InnerOf(id)), dvid, gws)
    {
      var id := interfaces.interfaces[dvid];
      ghost var t := routes.InnerOf(id);
      ghost var after := ApplyReply(t, dvid, k, gws, 0);
      for j := 0 to |gws|
        invariant routes.Valid() && routes.entrytouse == old(routes.entrytouse)
        invariant ApplyReply(routes.InnerOf(id), dvid, k, gws, j) == after
        invariant forall i :: i != id ==> routes.InnerOf(i) == old(routes.InnerOf(i))
      {
        var gateway := gws[j];
        if Delta(dvid, gateway) > HOST_BITS {
          var r := routes.GetRoute(gateway, dvid);
          if r.Via? {
            routes.UpdateEntry(dvid, k, r.nexthop, gateway, j == 0);
          }
        }
      }
      if Answers(t, dvid, k, gws) {
        ReplyNamesRoutes(t, dvid, k, gws);
      }
    }

    /** This switch's tables are those of switch id in a state of the protocol. */
    ghost predicate Mirrors(net: Net, s: State, id: nat)
      reads routes, rdvs, interfaces
    {
      && routes.Valid() && routes.interfaces == interfaces
      && (forall v: Vid :: v in interfaces.interfaces <==> v in net.sw && net.sw[v] == id)
      && (forall v: Vid :: v in interfaces.interfaces ==> interfaces.Owns(v))
      && rdvs.rdvedges == EdgesAt(s, id)
      && forall v: Vid :: v in interfaces.interfaces ==> routes.InnerOf(interfaces.interfaces[v]) == TableOf(s, v)
    }

    /** The publish branch: a step of the protocol. */
    method TakePublish(p: Packet, ghost net: Net, ghost s: State, ghost id: nat)
      returns (ghost e: Event, ghost s': State)
      requires Mirrors(net, s, id) && p in s.flying && p.body.Publish?
      requires p.at in interfaces.interfaces && p.dvid in interfaces.interfaces
      modifies rdvs
      ensures Mirrors(net, s', id) && Step(net, s, e, s') && s'.flying == s.flying - {p}
    {
      HandlePublish(p.svid, p.body.neighbor);
      e := Event.HandlePublish(p);
      s' := State(s.rt, s.rdv[id := EdgesAt(s, id) + {Edge(p.svid, p.body.neighbor)}], s.flying - {p});
    }

    /** The query branch: out is the answer, if there is one. */
    method TakeQuery(p: Packet, ghost net: Net, ghost s: State, ghost id: nat)
      returns (out: set<Packet>, ghost e: Event, ghost s': State)
      requires Mirrors(net, s, id) && p in s.flying && p.body.Query?
      requires p.at in interfaces.interfaces && p.port in interfaces.interfaces && p.dvid in interfaces.interfaces
      ensures Mirrors(net, s', id) && Step(net, s, e, s') && s'.flying == s.flying - {p} + out
      ensures exists gws ::
                && Selection(rdvs.rdvedges, p.body.bucket, p.svid, gws)
                && out == if gws == [] then {} else {AnswerPacket(net, p, gws)}
    {
      var gws, reply := Answer(p, net, s, id);
      out := if gws == [] then {} else {reply};
      e := Event.HandleQuery(p, gws, reply);
      s' := State(s.rt, s.rdv, s.flying - {p} + out);
      AnswerIsStep(net, s, p, gws, reply, s');
      SameTables(net, s, s', id);
    }

    lemma SameTables(net: Net, s: State, s': State, id: nat)
      requires Mirrors(net, s, id) && s'.rt == s.rt && s'.rdv == s.rdv
      ensures Mirrors(net, s', id)
    {
    }

    method Answer(p: Packet, ghost net: Net, ghost s: State, ghost id: nat) returns (gws: seq<Vid>, reply: Packet)
      requires Mirrors(net, s, id) && p.body.Query?
      requires p.at in interfaces.interfaces && p.port in interfaces.interfaces
      ensures net.SameSwitch(p.at, p.port) && Selection(EdgesAt(s, net.sw[p.at]), p.body.bucket, p.svid, gws)
      ensures reply == AnswerPacket(net, p, gws)
    {
      gws := HandleQuery(p.svid, p.body.bucket);
      var at := if interfaces.Owns(p.svid) then p.svid else p.port;
      reply := Packet(at, p.port, p.port, p.svid, Reply(p.body.bucket, gws));
    }

    /** The reply branch. */
    method TakeReply(p: Packet, ghost net: Net, ghost s: State, ghost id: nat) returns (ghost e: Event, ghost s': State)
      requires Mirrors(net, s, id) && p in s.flying && p.body.Reply?
      requires p.at in interfaces.interfaces && p.dvid in interfaces.interfaces
      modifies routes
      ensures Mirrors(net, s', id) && Step(net, s, e, s') && s'.flying == s.flying - {p}
    {
      HandleReply(p.dvid, p.body.bucket, p.body.gws);
      e := Event.HandleReply(p);
      ghost var t := ApplyReply(TableOf(s, p.dvid), p.dvid, p.body.bucket, p.body.gws, 0);
      s' := State(s.rt[p.dvid := t], s.rdv, s.flying - {p});
      OnlyOneTable(p.dvid);
    }

    /** A packet for another switch is passed on. Any other is handled, and what the handler does to
        this switch's tables and puts in the air is a step of the protocol. */
    method SimpleAction(p: Packet, ghost net: Net, ghost s: State, ghost id: nat)
      returns (handled: bool, out: set<Packet>, ghost e: Event, ghost s': State)
      requires Mirrors(net, s, id) && p in s.flying
      requires p.at in interfaces.interfaces && p.port in interfaces.interfaces
      modifies routes, rdvs
      ensures Mirrors(net, s', id)
      ensures handled <==> p.dvid in interfaces.interfaces
      ensures handled ==> Step(net, s, e, s') && s'.flying == s.flying - {p} + out
      ensures !handled ==> s' == s && out == {}
    {
      handled, out, e, s' := interfaces.Owns(p.dvid), {}, Lose(p), s;
      if !handled {
        return;
      }
      match p.body {
        case Publish(_) => e, s' := TakePublish(p, net, s, id);
        case Query(_) => out, e, s' := TakeQuery(p, net, s, id);
        case Reply(_, _) => e, s' := TakeReply(p, net, s, id);
      }
    }

    /** Interfaces that know their indexes have different ones. */
    lemma OnlyOneTable(x: Vid)
      requires x in interfaces.interfaces && forall v: Vid :: v in interfaces.interfaces ==> interfaces.Owns(v)
      ensures forall v: Vid :: v in interfaces.interfaces && v != x ==>
                interfaces.interfaces[v] != interfaces.interfaces[x]
    {
    }
  }

  /** A control packet as the timer hands it on. */
  datatype Sent = Sent(svid: Vid, dvid: Vid, body: Body)

  function SentAs(p: Packet): Sent {
    Sent(p.svid, p.dvid, p.body)
  }

  ghost function Published(order: seq<(Vid, Vid)>): set<Sent> {
    set e <- order :: SentAs(PublishPacket(e))
  }

  lemma PublishedNext(order: seq<(Vid, Vid)>, e: (Vid, Vid))
    ensures Published(order + [e]) == Published(order) + {SentAs(PublishPacket(e))}
  {
  }

  class BuildRouteTable {
    const routes: RouteTable
    const interfaces: InterfaceTable
    const neighbors: RP.NeighborTable

    constructor (routes: RouteTable, interfaces: InterfaceTable, neighbors: RP.NeighborTable)
      requires routes.interfaces == interfaces
      ensures this.routes == routes && this.interfaces == interfaces && this.neighbors == neighbors
    {
      this.routes, this.interfaces, this.neighbors := routes, interfaces, neighbors;
    }

    predicate Enabled(x: Vid)
      reads interfaces
    {
      x in interfaces.interfaces && interfaces.interfaces[x] in interfaces.isvidset
    }

    /** The edges the timer publishes: to neighbors, and between this switch's interfaces. */
    predicate LocalEdge(x: Vid, y: Vid)
      reads interfaces, neighbors
    {
      && Enabled(x) && x != y
      && (y in interfaces.interfaces || ToNeighbor(x, y))
    }

    ghost predicate Wired()
      reads routes, interfaces, neighbors
    {
      && routes.Valid() && routes.interfaces == interfaces
      && (forall m :: m in neighbors.neighbors ==> neighbors.neighbors[m].myVid in interfaces.interfaces)
      && (forall x: Vid, y: Vid :: x in interfaces.interfaces && y in interfaces.interfaces && x != y ==>
            interfaces.interfaces[x] != interfaces.interfaces[y])
    }

    function TableOf(x: Vid): Inner
      reads routes, interfaces
      requires x in interfaces.interfaces
    {
      routes.InnerOf(interfaces.interfaces[x])
    }

    ghost function AllTables(): map<Vid, Inner>
      reads routes, interfaces
    {
      map v: Vid | v in interfaces.interfaces :: TableOf(v)
    }

    /** v's table is what entering the edges in this order makes of it. */
    ghost predicate EnteredInto(order: seq<(Vid, Vid)>, start: map<Vid, Inner>, v: Vid)
      reads routes, interfaces
      requires v in start && v in interfaces.interfaces
    {
      TableOf(v) == EnterAll(start[v], v, order)
    }

    /** The edges of the list, and no others, have been published and entered, in this order. */
    ghost predicate Progress(order: seq<(Vid, Vid)>, published: set<Sent>, start: map<Vid, Inner>)
      reads routes, interfaces, neighbors
    {
      && Wired() && start.Keys == interfaces.interfaces.Keys
      && (forall e :: e in order ==> LocalEdge(e.0, e.1))
      && published == Published(order)
      && forall v: Vid {:trigger EnteredInto(order, start, v)} :: v in start ==> EnteredInto(order, start, v)
    }

    method EnterDefault(x: Vid, y: Vid)
      requires Wired() && x in interfaces.interfaces
      modifies routes
      ensures Wired() && routes.entrytouse == old(routes.entrytouse)
      ensures forall v: Vid :: v in interfaces.interfaces ==>
                TableOf(v) == if v == x then Update(old(TableOf(x)), Delta(x, y), y, x, true) else old(TableOf(v))
    {
      routes.UpdateEntry(x, Delta(x, y), y, x);
    }

    /** One edge is entered as the default of its level, and published. */
    method EnterEdge(x: Vid, y: Vid, ghost order: seq<(Vid, Vid)>, published: set<Sent>, ghost start: map<Vid, Inner>)
      returns (published': set<Sent>)
      requires Progress(order, published, start) && LocalEdge(x, y)
      modifies routes
      ensures Progress(order + [(x, y)], published', start)
      ensures routes.entrytouse == old(routes.entrytouse)
    {
      EnterDefault(x, y);
      forall v: Vid | v in start
        ensures EnteredInto(order + [(x, y)], start, v)
      {
        assert old(EnteredInto(order, start, v));
        EnterNext(start[v], v, order, (x, y));
      }
      PublishedNext(order, (x, y));
      DeltaZero(x, y);
      published' := published + {Sent(x, RdvPoint(x, Delta(x, y)), Publish(y))};
    }

    predicate ToNeighbor(x: Vid, y: Vid)
      reads neighbors
    {
      exists m <- neighbors.neighbors.Keys :: neighbors.neighbors[m] == RP.NeighborEntry(x, y)
    }

    predicate NeighborDone(m: nat, order: seq<(Vid, Vid)>)
      reads interfaces, neighbors
      requires m in neighbors.neighbors
    {
      var e := neighbors.neighbors[m];
      LocalEdge(e.myVid, e.neighborVid) ==> (e.myVid, e.neighborVid) in order
    }

    method EnterNeighbors(ghost start: map<Vid, Inner>) returns (published: set<Sent>, ghost order: seq<(Vid, Vid)>)
      requires Progress([], {}, start)
      modifies routes
      ensures Progress(order, published, start)
      ensures routes.entrytouse == old(routes.entrytouse)
      ensures forall x: Vid, y: Vid :: LocalEdge(x, y) && ToNeighbor(x, y) ==> (x, y) in order
    {
      published, order := {}, [];
      var macs := neighbors.neighbors.Keys;
      while macs != {}
        invariant Progress(order, published, start) && routes.entrytouse == old(routes.entrytouse)
        invariant macs <= neighbors.neighbors.Keys
        invariant forall m :: m in neighbors.neighbors && m !in macs ==> NeighborDone(m, order)
      {
        var m :| m in macs;
        macs := macs - {m};
        published, order := EnterNeighbor(m, order, published, start);
      }
    }

    method EnterNeighbor(m: nat, ghost before: seq<(Vid, Vid)>, published: set<Sent>, ghost start: map<Vid, Inner>)
      returns (published': set<Sent>, ghost order: seq<(Vid, Vid)>)
      requires Progress(before, published, start) && m in neighbors.neighbors
      modifies routes
      ensures Progress(order, published', start) && NeighborDone(m, order)
      ensures routes.entrytouse == old(routes.entrytouse) && forall e :: e in before ==> e in order
    {
      published', order := published, before;
      var nte := neighbors.neighbors[m];
      DeltaZero(nte.neighborVid, nte.myVid);
      if Enabled(nte.myVid) && Delta(nte.neighborVid, nte.myVid) != 0 {
        published' := EnterEdge(nte.myVid, nte.neighborVid, order, published', start);
        order := order + [(nte.myVid, nte.neighborVid)];
      }
    }

    method EnterPairsOf(int1: Vid, ghost before: seq<(Vid, Vid)>, published: set<Sent>, ghost start: map<Vid, Inner>)
      returns (published': set<Sent>, ghost order: seq<(Vid, Vid)>)
      requires Progress(before, published, start) && Enabled(int1)
      modifies routes
      ensures Progress(order, published', start) && before <= order
      ensures routes.entrytouse == old(routes.entrytouse)
      ensures forall y: Vid :: y in interfaces.interfaces && y != int1 ==> (int1, y) in order
    {
      published', order := published, before;
      var twos := interfaces.interfaces.Keys;
      while twos != {}
        invariant Progress(order, published', start) && before <= order && routes.entrytouse == old(routes.entrytouse)
        invariant twos <= interfaces.interfaces.Keys
        invariant forall y: Vid :: y in interfaces.interfaces && y !in twos && y != int1 ==> (int1, y) in order
      {
        var int2: Vid :| int2 in twos;
        twos := twos - {int2};
        DeltaZero(int2, int1);
        if Delta(int2, int1) != 0 {
          published' := EnterEdge(int1, int2, order, published', start);
          order := order + [(int1, int2)];
        }
      }
    }

    method EnterPairs(ghost before: seq<(Vid, Vid)>, published: set<Sent>, ghost start: map<Vid, Inner>)
      returns (published': set<Sent>, ghost order: seq<(Vid, Vid)>)
      requires Progress(before, published, start)
      modifies routes
      ensures Progress(order, published', start) && before <= order
      ensures routes.entrytouse == old(routes.entrytouse)
      ensures forall x: Vid, y: Vid :: Enabled(x) && y in interfaces.interfaces && y != x ==> (x, y) in order
    {
      published', order := published, before;
      var ones := interfaces.interfaces.Keys;
      while ones != {}
        invariant Progress(order, published', start) && before <= order && routes.entrytouse == old(routes.entrytouse)
        invariant ones <= interfaces.interfaces.Keys
        invariant forall x: Vid, y: Vid :: Enabled(x) && x !in ones && y in interfaces.interfaces && y != x ==>
                    (x, y) in order
      {
        var int1: Vid :| int1 in ones;
        ones := ones - {int1};
        if Enabled(int1) {
          published', order := EnterPairsOf(int1, order, published', start);
        }
      }
    }

    /** Every enabled interface asks its rendezvous point for every queried level. */
    ghost predicate AllQueries(queried: set<Sent>)
      reads interfaces
    {
      forall p :: p in queried <==>
        exists x: Vid, k :: Enabled(x) && FIRST_QUERIED <= k <= LAST_QUERIED && p == Sent(x, RdvPoint(x, k), Query(k))
    }

    method QueryAll() returns (queried: set<Sent>)
      ensures AllQueries(queried)
    {
      queried := {};
      var asking := interfaces.interfaces.Keys;
      while asking != {}
        invariant asking <= interfaces.interfaces.Keys
        invariant forall p :: p in queried <==>
                    exists x: Vid, k :: x !in asking && Enabled(x) && FIRST_QUERIED <= k <= LAST_QUERIED
                      && p == Sent(x, RdvPoint(x, k), Query(k))
      {
        var x: Vid :| x in asking;
        if Enabled(x) {
          ghost var before := queried;
          for i := FIRST_QUERIED to LAST_QUERIED + 1
            invariant queried == before + set k | FIRST_QUERIED <= k < i :: Sent(x, RdvPoint(x, k), Query(k))
          {
            queried := queried + {Sent(x, RdvPoint(x, i), Query(i))};
          }
        }
        asking := asking - {x};
      }
    }

    /** The list holds all local edges. */
    ghost predicate AllLocal(order: seq<(Vid, Vid)>)
      reads interfaces, neighbors
    {
      forall e: (Vid, Vid) :: e in order <==> LocalEdge(e.0, e.1)
    }

    /** What the timer has done: the tables hold the local edges entered in some order, these are
        published, and every interface has asked for levels 17 to 32. */
    ghost predicate Fired(order: seq<(Vid, Vid)>, published: set<Sent>, queried: set<Sent>, start: map<Vid, Inner>)
      reads routes, interfaces, neighbors
    {
      Progress(order, published, start) && AllLocal(order) && AllQueries(queried)
    }

    lemma NothingEntered()
      requires Wired()
      ensures Progress([], {}, AllTables())
    {
    }

    /** The timer: every local edge becomes a default entry of its level and is published
        to that level's rendezvous point; every interface queries levels 17 to 32. */
    method RunTimer() returns (published: set<Sent>, queried: set<Sent>, ghost order: seq<(Vid, Vid)>)
      requires Wired()
      modifies routes
      ensures Wired() && routes.entrytouse == old(routes.entrytouse)
      ensures !interfaces.isVIDAssignmentDone ==>
                published == {} && queried == {} && routes.routes == old(routes.routes)
      ensures interfaces.isVIDAssignmentDone ==> Fired(order, published, queried, old(AllTables()))
    {
      published, queried, order := {}, {}, [];
      if !interfaces.isVIDAssignmentDone {
        return;
      }
      NothingEntered();
      published, queried, order := PublishAndQuery(AllTables());
    }

    method PublishAndQuery(ghost start: map<Vid, Inner>)
      returns (published: set<Sent>, queried: set<Sent>, ghost order: seq<(Vid, Vid)>)
      requires Progress([], {}, start)
      modifies routes
      ensures Fired(order, published, queried, start)
      ensures routes.entrytouse == old(routes.entrytouse)
    {
      published, order := EnterLocalEdges(start);
      queried := QueryAll();
    }

    method EnterLocalEdges(ghost start: map<Vid, Inner>) returns (published: set<Sent>, ghost order: seq<(Vid, Vid)>)
      requires Progress([], {}, start)
      modifies routes
      ensures Progress(order, published, start) && AllLocal(order)
      ensures routes.entrytouse == old(routes.entrytouse)
    {
      published, order := EnterNeighbors(start);
      published, order := EnterPairs(order, published, start);
    }

    // ----- the timer as steps of the protocol

    /** The interfaces and neighbor entries are those of switch id, and all interfaces have ids. */
    ghost predicate Fits(net: Net, id: nat)
      reads interfaces, neighbors
    {
      && (forall v: Vid :: v in interfaces.interfaces <==> At(net, id, v))
      && (forall v: Vid :: v in interfaces.interfaces ==> interfaces.Owns(v) && Enabled(v))
      && (forall m :: m in neighbors.neighbors ==>
            var e := neighbors.neighbors[m];
            e.myVid in interfaces.interfaces && (e.myVid, e.neighborVid) in net.links)
      && (forall l :: l in net.links && l.0 in interfaces.interfaces ==> ToNeighbor(l.0, l.1))
    }

    ghost predicate SameTables(s: State)
      reads routes, interfaces
    {
      forall v: Vid {:trigger Protocol.TableOf(s, v)} :: v in interfaces.interfaces ==>
        TableOf(v) == Protocol.TableOf(s, v)
    }

    /** This switch's tables are those of switch id in a state of the protocol. */
    ghost predicate Mirrors(net: Net, s: State, id: nat)
      reads routes, interfaces, neighbors
    {
      routes.Valid() && routes.interfaces == interfaces && Fits(net, id) && SameTables(s)
    }

    lemma MirrorsIsWired(net: Net, s: State, id: nat)
      requires Mirrors(net, s, id)
      ensures Wired()
    {
    }

    /** The local edges are the switch's edges in the network. */
    lemma LocalIsEdge(net: Net, id: nat, e: (Vid, Vid))
      requires net.Valid() && Fits(net, id)
      ensures LocalEdge(e.0, e.1) <==> IsEdge(net, id, e)
    {
      if ToNeighbor(e.0, e.1) {
        var m :| m in neighbors.neighbors && neighbors.neighbors[m] == RP.NeighborEntry(e.0, e.1);
      }
      if e in net.links {
        assert e == (e.0, e.1);
      }
    }

    lemma LocalsAreEdges(net: Net, id: nat, order: seq<(Vid, Vid)>)
      requires net.Valid() && Fits(net, id) && AllLocal(order)
      ensures AllEdges(net, id, order)
    {
      forall e: (Vid, Vid)
        ensures e in order <==> IsEdge(net, id, e)
      {
        LocalIsEdge(net, id, e);
      }
    }

    lemma QueriedPackets(net: Net, id: nat, asks: seq<(Vid, nat)>, queried: set<Sent>)
      requires AllQueries(queried) && AllQuestions(net, id, asks) && Fits(net, id)
      ensures queried == set p <- QueryPackets(asks) :: SentAs(p)
    {
      var all := set p <- QueryPackets(asks) :: SentAs(p);
      forall p | p in queried
        ensures p in all
      {
        var x: Vid, k: nat :| Enabled(x) && FIRST_QUERIED <= k <= LAST_QUERIED
            && p == Sent(x, RdvPoint(x, k), Query(k));
        assert IsQuestion(net, id, (x, k));
        assert QueryPacket((x, k)) in QueryPackets(asks);
        assert p == SentAs(QueryPacket((x, k)));
      }
      forall q | q in asks
        ensures SentAs(QueryPacket(q)) in queried
      {
        assert IsQuestion(net, id, q) && Enabled(q.0);
      }
    }

    /** The tables after the timer are those of the state after the run. */
    lemma FiredMirrors(net: Net, s: State, s': State, id: nat, order: seq<(Vid, Vid)>, published: set<Sent>,
                       start: map<Vid, Inner>)
      requires Fits(net, id) && Progress(order, published, start) && Enters(s, s', order)
      requires forall v: Vid {:trigger Protocol.TableOf(s, v)} :: v in start ==> start[v] == Protocol.TableOf(s, v)
      ensures Mirrors(net, s', id)
    {
      forall v: Vid | v in interfaces.interfaces
        ensures TableOf(v) == Protocol.TableOf(s', v)
      {
        assert EnteredInto(order, start, v);
        assert start[v] == Protocol.TableOf(s, v);
      }
    }

    lemma SentTogether(order: seq<(Vid, Vid)>, asks: seq<(Vid, nat)>, queried: set<Sent>)
      requires queried == set p <- QueryPackets(asks) :: SentAs(p)
      ensures Published(order) + queried == set p <- PublishPackets(order) + QueryPackets(asks) :: SentAs(p)
    {
    }

    /** On a switch that mirrors a protocol state, firing the timer is a run of publishes and queries,
        exactly those of one call, that ends in a state the switch mirrors again. */
    method FireTimer(ghost net: Net, ghost s: State, ghost id: nat)
      returns (published: set<Sent>, queried: set<Sent>, ghost states: seq<State>, ghost events: seq<Event>,
               ghost sent: set<Packet>)
      requires net.Valid() && Mirrors(net, s, id) && interfaces.isVIDAssignmentDone
      modifies routes
      ensures LastingRun(net, states, events) && states[0] == s && TimerCall(net, id, events)
      ensures Mirrors(net, Last(states), id)
      ensures Last(states).rdv == s.rdv && Last(states).flying == s.flying + sent
      ensures published + queried == set p <- sent :: SentAs(p)
    {
      MirrorsIsWired(net, s, id);
      ghost var start := AllTables();
      ghost var order;
      published, queried, order := RunTimer();
      ghost var asks := ListQuestions(net, id);
      LocalsAreEdges(net, id, order);
      QueriedPackets(net, id, asks, queried);
      states, events := TimerRun(net, s, id, order, asks);
      FiredMirrors(net, s, Last(states), id, order, published, start);
      SentTogether(order, asks, queried);
      sent := PublishPackets(order) + QueryPackets(asks);
    }
  }

  // ----- what entering the edges leaves in a bucket

  predicate OnlyDefault(b: Bucket, nh: Vid, g: Vid) {
    b[0] == Slot(nh, g, true, true) && forall i :: 0 < i < MAX_GW_PER_BUCKET ==> !b[i].isValid
  }

  /** Bucket k of x holds one of the edges of that level as the default and nothing else, or, if there
      is none, what it held before. */
  ghost predicate Entered(order: seq<(Vid, Vid)>, x: Vid, k: nat, b: Bucket, now: Bucket) {
    if exists y: Vid :: (x, y) in order && Delta(x, y) == k
    then exists y: Vid :: (x, y) in order && Delta(x, y) == k && OnlyDefault(now, y, x)
    else now == b
  }

  lemma {:induction false} EnteredBuckets(t: Inner, x: Vid, order: seq<(Vid, Vid)>, k: nat)
    ensures Entered(order, x, k, Get(t, k), Get(EnterAll(t, x, order), k))
  {
    if order != [] {
      var n := |order| - 1;
      EnteredBuckets(t, x, order[..n], k);
      EnterNext(t, x, order[..n], order[n]);
      assert order == order[..n] + [order[n]];
      var t' := EnterAll(t, x, order[..n]);
      EnteredNext(order[..n], order[n], x, k, Get(t, k), Get(t', k), Get(EnterAll(t, x, order), k));
    }
  }

  lemma EnteredNext(order: seq<(Vid, Vid)>, e: (Vid, Vid), x: Vid, k: nat, b: Bucket, before: Bucket, now: Bucket)
    requires Entered(order, x, k, b, before)
    requires now == if e.0 == x && k == Delta(x, e.1) then SetDefault(before, e.1, x) else before
    ensures Entered(order + [e], x, k, b, now)
  {
    if e.0 == x && k == Delta(x, e.1) {
      assert (x, e.1) in order + [e];
    } else if y: Vid :| (x, y) in order + [e] && Delta(x, y) == k {
      assert (x, y) in order;
      var z: Vid :| (x, z) in order && Delta(x, z) == k && OnlyDefault(before, z, x);
      assert (x, z) in order + [e];
    }
  }
}
