/** What handling a reply leaves in the bucket it names: the usable gateways, in the order
    in which the reply names them, each with the default next hop towards it. */
module ReplyRoutes {
  import opened VidBits
  import opened RouteTable
  import opened Protocol
  import opened Construction

  /** The table knows a default next hop towards g, and g is not at this switch. */
  predicate Usable(t: Inner, x: Vid, g: Vid) {
    Delta(x, g) > HOST_BITS && Default(t, Delta(x, g)).Via?
  }

  function RouteTo(t: Inner, x: Vid, g: Vid): RouteReply
    requires Usable(t, x, g)
  {
    Via(Default(t, Delta(x, g)).nexthop, g)
  }

  function RouteIf(t: Inner, x: Vid, g: Vid): seq<RouteReply> {
    if Usable(t, x, g) then [RouteTo(t, x, g)] else []
  }

  /** The routes to the usable ones among some gateways, in their order. */
  function RoutesTo(t: Inner, x: Vid, gws: seq<Vid>): seq<RouteReply> {
    if gws == [] then []
    else RouteIf(t, x, gws[0]) + RoutesTo(t, x, gws[1..])
  }

  /** A bucket has four slots; what comes later is dropped. */
  function FirstFour(rs: seq<RouteReply>): seq<RouteReply> {
    if |rs| <= MAX_GW_PER_BUCKET then rs else rs[..MAX_GW_PER_BUCKET]
  }

  /** Every gateway that can be reached is listed once for each time it is named, and
      nothing else. */
  lemma {:induction false} RoutesToLists(t: Inner, x: Vid, gws: seq<Vid>)
    ensures |RoutesTo(t, x, gws)| <= |gws|
    ensures (forall g <- gws :: Usable(t, x, g)) ==>
              |RoutesTo(t, x, gws)| == |gws|
              && forall i :: 0 <= i < |gws| ==> RoutesTo(t, x, gws)[i] == RouteTo(t, x, gws[i])
  {
    if gws != [] {
      RoutesToLists(t, x, gws[1..]);
      if forall g <- gws :: Usable(t, x, g) {
        assert Usable(t, x, gws[0]);
        forall i | 1 <= i < |gws|
          ensures RoutesTo(t, x, gws)[i] == RouteTo(t, x, gws[i])
        {
          assert gws[1..][i - 1] == gws[i];
        }
      }
    }
  }

  /** What a gateway is worth depends on the default routes only. */
  lemma {:induction false} SameDefaults(t: Inner, t': Inner, x: Vid, gws: seq<Vid>)
    requires forall g <- gws :: Default(t', Delta(x, g)) == Default(t, Delta(x, g))
    ensures RoutesTo(t', x, gws) == RoutesTo(t, x, gws)
  {
    if gws != [] {
      assert gws[0] in gws;
      SameDefaults(t, t', x, gws[1..]);
    }
  }

  lemma {:induction false} EnteredRoutes(t: Inner, x: Vid, k: nat, g: Vid, isDefault: bool)
    requires DisciplinedAll(t)
    ensures forall j :: RoutesOf(EnterGateway(t, x, k, g, isDefault), j) ==
              if j != k || !Usable(t, x, g) then RoutesOf(t, j)
              else if isDefault then [RouteTo(t, x, g)]
              else FirstFour(RoutesOf(t, k) + [RouteTo(t, x, g)])
  {
    if Usable(t, x, g) {
      RoutesAfterUpdate(t, k, Default(t, Delta(x, g)).nexthop, g, isDefault);
    }
  }

  lemma {:induction false} EnteredLater(t: Inner, x: Vid, k: nat, g: Vid, t': Inner)
    requires DisciplinedAll(t) && t' == EnterGateway(t, x, k, g, false)
    ensures DisciplinedAll(t') && forall i :: Default(t', i) == Default(t, i)
    ensures RoutesOf(t', k) == FirstFour(RoutesOf(t, k) + RouteIf(t, x, g))
    ensures forall i :: i != k ==> RoutesOf(t', i) == RoutesOf(t, i)
  {
    EnteredRoutes(t, x, k, g, false);
    GatewayDefaults(t, x, k, g, false);
    assert RoutesOf(t, k) + [] == RoutesOf(t, k);
  }

  lemma {:induction false} RoutesToFrom(t: Inner, x: Vid, gws: seq<Vid>, j: nat)
    requires j < |gws|
    ensures RoutesTo(t, x, gws[j..]) == RouteIf(t, x, gws[j]) + RoutesTo(t, x, gws[j + 1..])
  {
    assert gws[j..][0] == gws[j] && gws[j..][1..] == gws[j + 1..];
  }

  lemma {:induction false} FourInTurn(a: seq<RouteReply>, b: seq<RouteReply>, c: seq<RouteReply>)
    ensures FirstFour(FirstFour(a + b) + c) == FirstFour(a + (b + c))
  {
    assert a + (b + c) == a + b + c;
  }

  /** The gateways after the first are added behind what the bucket holds. */
  lemma {:induction false} LaterRoutes(t: Inner, x: Vid, k: nat, gws: seq<Vid>, j: nat)
    requires DisciplinedAll(t) && 0 < j <= |gws|
    ensures RoutesOf(ApplyReply(t, x, k, gws, j), k) == FirstFour(RoutesOf(t, k) + RoutesTo(t, x, gws[j..]))
    ensures forall i :: i != k ==> RoutesOf(ApplyReply(t, x, k, gws, j), i) == RoutesOf(t, i)
    decreases |gws| - j
  {
    if j == |gws| {
      assert RoutesOf(t, k) + [] == RoutesOf(t, k);
    } else {
      var t' := EnterGateway(t, x, k, gws[j], false);
      EnteredLater(t, x, k, gws[j], t');
      LaterRoutes(t', x, k, gws, j + 1);
      SameDefaults(t, t', x, gws[j + 1..]);
      RoutesToFrom(t, x, gws, j);
      FourInTurn(RoutesOf(t, k), RouteIf(t, x, gws[j]), RoutesTo(t, x, gws[j + 1..]));
    }
  }

  /** The bucket after a reply: a usable first gateway replaces what was there, the usable
      later ones follow in order up to four in all, and other buckets stay as they were. */
  lemma {:induction false} ReplyLeaves(t: Inner, x: Vid, k: nat, gws: seq<Vid>)
    requires DisciplinedAll(t) && gws != []
    ensures var t1 := EnterGateway(t, x, k, gws[0], true);
            var base := if Usable(t, x, gws[0]) then [RouteTo(t, x, gws[0])] else RoutesOf(t, k);
            forall i :: RoutesOf(ApplyReply(t, x, k, gws, 0), i) ==
              if i == k then FirstFour(base + RoutesTo(t1, x, gws[1..])) else RoutesOf(t, i)
  {
    EnteredRoutes(t, x, k, gws[0], true);
    GatewayDefaults(t, x, k, gws[0], true);
    LaterRoutes(EnterGateway(t, x, k, gws[0], true), x, k, gws, 1);
  }

  /** An answer as rendezvous nodes give them, to a table that can use its first gateway: at
      most four gateways, none of them at the distance asked for. */
  predicate Answers(t: Inner, x: Vid, k: nat, gws: seq<Vid>) {
    0 < |gws| <= MAX_GW_PER_BUCKET && Usable(t, x, gws[0]) && forall g <- gws :: Delta(x, g) != k
  }

  /** Such a reply leaves exactly its usable gateways, reached as the table knew before. */
  lemma {:induction false} ReplyNamesRoutes(t: Inner, x: Vid, k: nat, gws: seq<Vid>)
    requires DisciplinedAll(t) && Answers(t, x, k, gws)
    ensures RoutesOf(ApplyReply(t, x, k, gws, 0), k) == RoutesTo(t, x, gws)
  {
    ReplyLeaves(t, x, k, gws);
    GatewayDefaults(t, x, k, gws[0], true);
    SameDefaults(t, EnterGateway(t, x, k, gws[0], true), x, gws[1..]);
    RoutesToLists(t, x, gws);
  }
}
