/** The forwarding element of one switch: choosing an output port for a packet, and the
    loop that re-aims control packets until a port is found. */
module RoutePacket {
  import opened VidBits
  import opened InterfaceTable
  import opened Network
  import opened RouteTable
  import opened Forwarding

  datatype NeighborEntry = NeighborEntry(myVid: Vid, neighborVid: Vid)

  class NeighborTable {
    /** Keyed by the neighbor's hardware address. */
    var neighbors: map<nat, NeighborEntry>

    constructor (neighbors: map<nat, NeighborEntry>)
      ensures this.neighbors == neighbors
    {
      this.neighbors := neighbors;
    }

    predicate Lists(v: Vid)
      reads this
    {
      exists m <- neighbors.Keys :: neighbors[m].neighborVid == v
    }

    /** The first entry, in table order, whose neighbor has the given id. */
    method LookupEntry(v: Vid) returns (found: bool, myVid: Vid)
      ensures found <==> Lists(v)
      ensures found ==> exists m <- neighbors.Keys :: neighbors[m] == NeighborEntry(myVid, v)
    {
      found, myVid := false, Zeros(VID_BITS);
      var rest := neighbors.Keys;
      while rest != {}
        invariant rest <= neighbors.Keys
        invariant forall m :: m in neighbors && m !in rest ==> neighbors[m].neighborVid != v
      {
        var m :| m in rest;
        if neighbors[m].neighborVid == v {
          return true, neighbors[m].myVid;
        }
        rest := rest - {m};
      }
    }
  }

  class RoutePacket {
    const routes: RouteTable
    const interfaces: InterfaceTable
    const neighbors: NeighborTable

    constructor (routes: RouteTable, interfaces: InterfaceTable, neighbors: NeighborTable)
      requires routes.interfaces == interfaces
      ensures this.routes == routes && this.interfaces == interfaces && this.neighbors == neighbors
    {
      this.routes, this.interfaces, this.neighbors := routes, interfaces, neighbors;
    }

    ghost predicate Wired()
      reads routes
    {
      routes.interfaces == interfaces && routes.Valid()
    }

    /** Every neighbor is attached to an interface id that has a port. The lookup delivers the port
        whether or not the reverse mapping agrees. */
    ghost predicate Attached()
      reads interfaces, neighbors
    {
      forall m :: m in neighbors.neighbors ==> neighbors.neighbors[m].myVid in interfaces.interfaces
    }

    /** What this switch's own tables decide about dst, in the name of interface my. */
    ghost function Decide(my: Vid, dst: Vid): Move
      reads routes, interfaces, neighbors
    {
      if Delta(my, dst) <= HOST_BITS then Here
      else if neighbors.Lists(SwitchVid(dst)) then To(SwitchVid(dst))
      else if my !in interfaces.interfaces then Stuck
      else
        match Default(routes.InnerOf(interfaces.interfaces[my]), Delta(my, dst))
        case Via(nh, _) => if neighbors.Lists(nh) || interfaces.Owns(nh) then To(nh) else Stuck
        case _ => Stuck
    }

    /** The target after flipping bits for as long as the tables are stuck on it. */
    ghost function Settled(my: Vid, dst: Vid): (d: Vid)
      reads routes, interfaces, neighbors
      ensures !Decide(my, d).Stuck?
      decreases Delta(my, dst)
    {
      if Decide(my, dst).Stuck? then
        FlipDelta(my, dst);
        Settled(my, FlipBit(dst, Delta(my, dst)))
      else
        dst
    }

    /** This switch's tables are those of switch id in the network: its interfaces, its
        neighbor entries and the default routes of each interface. */
    ghost predicate Mirrors(net: Net, rt: Tables, id: nat)
      reads routes, interfaces, neighbors
    {
      && (forall v: Vid :: v in interfaces.interfaces <==> v in net.sw && net.sw[v] == id)
      && (forall v: Vid :: v in interfaces.interfaces ==> interfaces.Owns(v))
      && (forall m :: m in neighbors.neighbors ==>
            var e := neighbors.neighbors[m];
            e.myVid in interfaces.interfaces && (e.myVid, e.neighborVid) in net.links)
      && (forall l :: l in net.links && l.0 in interfaces.interfaces ==>
            exists m :: m in neighbors.neighbors && neighbors.neighbors[m] == NeighborEntry(l.0, l.1))
      && (forall v: Vid, k :: v in interfaces.interfaces ==>
            DefaultAt(rt, v, k) == Default(routes.InnerOf(interfaces.interfaces[v]), k))
    }

    lemma ListsIsBeside(net: Net, rt: Tables, id: nat, my: Vid, v: Vid)
      requires Mirrors(net, rt, id) && my in interfaces.interfaces
      ensures neighbors.Lists(v) <==> net.Beside(my, v)
    {
      if neighbors.Lists(v) {
        var m :| m in neighbors.neighbors && neighbors.neighbors[m].neighborVid == v;
        var l := (neighbors.neighbors[m].myVid, v);
        assert l in net.links && net.SameSwitch(my, l.0) && l.1 == v;
      }
    }

    /** A switch that mirrors the network decides as the network-level model says. */
    lemma DecidesAsForward(net: Net, rt: Tables, id: nat, my: Vid, dst: Vid)
      requires Mirrors(net, rt, id) && my in interfaces.interfaces
      ensures Attached() && Decide(my, dst) == Forward(net, rt, my, dst)
    {
      ListsIsBeside(net, rt, id, my, SwitchVid(dst));
      var r := DefaultAt(rt, my, Delta(my, dst));
      if r.Via? {
        ListsIsBeside(net, rt, id, my, r.nexthop);
      }
    }

    /** ... and a stuck control packet is re-aimed by the network-level steps. */
    lemma {:induction false} SettlesByAdvancing(net: Net, rt: Tables, id: nat, my: Vid, dst: Vid)
      returns (steps: seq<Pos>)
      requires Mirrors(net, rt, id) && my in interfaces.interfaces
      ensures steps != [] && steps[0] == Pos(my, dst) && steps[|steps| - 1] == Pos(my, Settled(my, dst))
      ensures forall i :: 0 <= i < |steps| - 1 ==>
                Delta(steps[i].at, steps[i].dest) > HOST_BITS && steps[i + 1] == Advance(net, rt, steps[i])
      decreases Delta(my, dst)
    {
      DecidesAsForward(net, rt, id, my, dst);
      if Decide(my, dst).Stuck? {
        FlipDelta(my, dst);
        var rest := SettlesByAdvancing(net, rt, id, my, FlipBit(dst, Delta(my, dst)));
        steps := [Pos(my, dst)] + rest;
      } else {
        steps := [Pos(my, dst)];
      }
    }

    /** The index of an own interface, or -1. */
    function PortOf(v: Vid): int
      reads interfaces
    {
      if v in interfaces.interfaces then interfaces.interfaces[v] else -1
    }

    /** A neighbor is reached through the interface that an entry attaches it to; any other next
        hop is an own interface, in whose name this switch goes on. */
    ghost predicate LeadsTo(y: Vid, my: Vid, port: int, my': Vid)
      reads interfaces, neighbors
    {
      if neighbors.Lists(y) then
        && my' == my
        && exists m :: m in neighbors.neighbors && neighbors.neighbors[m].neighborVid == y
                       && port == PortOf(neighbors.neighbors[m].myVid)
      else
        my' == y && port == interfaces.count
    }

    /** The port, the next hop and the interface to go on from that a decision calls for. */
    ghost predicate Chosen(my: Vid, dst: Vid, port: int, hop: Vid, my': Vid)
      reads routes, interfaces, neighbors
    {
      match Decide(my, dst)
      case Here => port == interfaces.count && hop == my && my' == my
      case To(y) => hop == y && LeadsTo(y, my, port, my')
      case Stuck => port == -1 && my' == my
    }

    /** The port belongs to an interface of this switch with a physical link to y. */
    ghost predicate Carries(net: Net, my: Vid, port: int, y: Vid)
      reads interfaces
    {
      && port >= 0 && port in interfaces.rinterfaces
      && net.SameSwitch(my, interfaces.rinterfaces[port]) && (interfaces.rinterfaces[port], y) in net.links
    }

    /** On a switch that mirrors the network, the port chosen carries the packet over the very
        hop that the network-level model makes. */
    lemma PortCarriesHop(net: Net, rt: Tables, id: nat, my: Vid, dst: Vid, port: int, hop: Vid, my': Vid)
      requires Mirrors(net, rt, id) && my in interfaces.interfaces && Chosen(my, dst, port, hop, my')
      ensures match Forward(net, rt, my, dst)
              case Here => port == interfaces.count && hop == my' == my
              case To(y) =>
                && hop == y
                && if net.Beside(my, y) then my' == my && Carries(net, my, port, y)
                   else my' == y && net.SameSwitch(my, y) && port == interfaces.count
              case Stuck => port == -1
    {
      DecidesAsForward(net, rt, id, my, dst);
      var d := Decide(my, dst);
      if d.To? {
        ListsIsBeside(net, rt, id, my, d.next);
      }
    }

    /** The output port for dst from interface my: the port of a neighbor, the count of
        interfaces for "this switch", or -1. Also returned: the distance k, the next hop
        (hop when none was found), and the interface in whose name to go on. */
    method GetPort(dst: Vid, my: Vid, hop: Vid) returns (port: int, k: nat, nexthop: Vid, my': Vid)
      requires Wired()
      ensures port >= -1
      ensures k == Delta(my', dst) && (port == -1 ==> k > HOST_BITS && my' == my)
      ensures Chosen(my, dst, port, nexthop, my')
      ensures Delta(my, dst) <= HOST_BITS ==> port == interfaces.count && nexthop == my' == my
      ensures Delta(my, dst) > HOST_BITS && neighbors.Lists(SwitchVid(dst)) ==>
                nexthop == SwitchVid(dst) && LeadsTo(nexthop, my, port, my')
    {
      k, nexthop, my', port := Delta(my, dst), hop, my, -1;
      if k <= HOST_BITS {
        return interfaces.count, k, my, my;
      }
      var swvid := SwitchVid(dst);
      var found, myInterfacevid := neighbors.LookupEntry(swvid);
      if found {
        nexthop := swvid;
        if myInterfacevid in interfaces.interfaces {
          port := interfaces.interfaces[myInterfacevid];
        }
        return;
      }
      var r := routes.GetDefaultRoute(dst, my);
      if r.Via? {
        nexthop := r.nexthop;
        found, myInterfacevid := neighbors.LookupEntry(nexthop);
        if found {
          if myInterfacevid in interfaces.interfaces {
            port := interfaces.interfaces[myInterfacevid];
          }
        } else if interfaces.Owns(nexthop) {
          my' := nexthop;
          k := Delta(my', dst);
          port := interfaces.count;
        }
      }
    }

    lemma FlipSettles(my: Vid, d: Vid)
      requires Delta(my, d) > 0
      ensures Decide(my, d).Stuck? ==> Settled(my, d) == Settled(my, FlipBit(d, Delta(my, d)))
    {
    }

    lemma FlipLowers(my: Vid, dst: Vid, dst': Vid)
      requires Delta(my, dst') > 0 && Delta(dst, dst') <= Delta(my, dst)
      ensures Delta(my, FlipBit(dst', Delta(my, dst'))) < Delta(my, dst')
      ensures Delta(dst, FlipBit(dst', Delta(my, dst'))) <= Delta(my, dst)
    {
      FlipDelta(my, dst');
      DeltaUltra(dst, dst', FlipBit(dst', Delta(my, dst')));
      DeltaUltra(dst, my, dst');
      DeltaSym(dst, my);
    }

    /** Where the loop stands: d is still dst above the starting distance, a failed attempt has
        told the distance, and if every entry is attached, d settles where dst does. */
    ghost predicate Aimed(my: Vid, dst: Vid, d: Vid, port: int, k: nat, hop: Vid, my': Vid)
      reads routes, interfaces, neighbors
    {
      && Delta(dst, d) <= Delta(my, dst)
      && port >= -1 && (port == -1 ==> k == Delta(my, d) && k > HOST_BITS && my' == my)
      && (Attached() ==> Settled(my, dst) == Settled(my, d))
      && Chosen(my, d, port, hop, my')
    }

    method FirstAim(my: Vid, dst: Vid) returns (port: int, k: nat, nexthop: Vid, my': Vid)
      requires Wired()
      ensures Aimed(my, dst, dst, port, k, nexthop, my')
    {
      DeltaZero(dst, dst);
      port, k, nexthop, my' := GetPort(dst, my, Zeros(VID_BITS));
    }

    /** One round: the bit that tells d from this interface is flipped, and a port is sought. */
    method AimAgain(my: Vid, ghost dst: Vid, d: Vid, ghost port: int, k: nat, hop: Vid)
      returns (port': int, k': nat, nexthop: Vid, my': Vid, d': Vid)
      requires Wired() && Aimed(my, dst, d, port, k, hop, my) && port == -1
      ensures Delta(my, d') < Delta(my, d)
      ensures Aimed(my, dst, d', port', k', nexthop, my')
    {
      FlipLowers(my, dst, d);
      FlipSettles(my, d);
      d' := FlipBit(d, k);
      port', k', nexthop, my' := GetPort(d', my, hop);
    }

    lemma AimSettles(my: Vid, dst: Vid, d: Vid, port: int, k: nat, hop: Vid, my': Vid)
      requires Aimed(my, dst, d, port, k, hop, my') && port >= 0
      ensures Attached() ==> d == Settled(my, dst)
      ensures !Decide(my, d).Stuck?
    {
    }

    /** The re-aiming loop. Whatever the tables hold, it flips at most 32 bits, ends with a
        usable port, and changes no bit above the starting distance. */
    method ReAim(dst: Vid, my: Vid) returns (port: int, nexthop: Vid, my': Vid, dst': Vid, ghost flips: nat)
      requires Wired()
      ensures port >= 0 && flips <= 32
      ensures Delta(dst, dst') <= Delta(my, dst)
      ensures Attached() ==> dst' == Settled(my, dst)
      ensures !Decide(my, dst').Stuck? && Chosen(my, dst', port, nexthop, my')
    {
      var k;
      dst', flips := dst, 0;
      port, k, nexthop, my' := FirstAim(my, dst);
      while port < 0
        invariant Aimed(my, dst, dst', port, k, nexthop, my')
        invariant flips + Delta(my, dst') <= VID_BITS && flips <= 32
        decreases Delta(my, dst'), -port
      {
        port, k, nexthop, my', dst' := AimAgain(my, dst, dst', port, k, nexthop);
        flips := flips + 1;
      }
      AimSettles(my, dst, dst', port, k, nexthop, my');
    }
  }
}
