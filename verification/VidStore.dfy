/** The controller's element: its topology database, the numbering of the nodes, and the ids
    it stores, with what the clustering guarantees about them. */
module VidStore {
  import opened VidBits
  import opened Graph
  import opened Embedding
  import opened VidAssignment
  import opened VidPacking
  import opened Network

  /** ids numbers the nodes of the database, nodeids is the way back. */
  ghost predicate Numbering(topo: map<Mac, seq<Mac>>, ids: seq<Mac>, nodeids: map<Mac, nat>) {
    && nodeids.Keys == topo.Keys
    && (forall i :: 0 <= i < |ids| ==> ids[i] in nodeids && nodeids[ids[i]] == i)
    && (forall m :: m in nodeids ==> nodeids[m] < |ids| && ids[nodeids[m]] == m)
  }

  predicate Reports(topo: map<Mac, seq<Mac>>, ids: seq<Mac>, u: nat, v: nat) {
    u < |ids| && v < |ids| && ids[u] in topo && ids[v] in topo[ids[u]]
  }

  /** The graph of reports between numbered nodes, in either direction. */
  ghost predicate Depicts(topo: map<Mac, seq<Mac>>, ids: seq<Mac>, g: Graph) {
    && |g| == |ids| && (forall i :: 0 <= i < |ids| ==> ids[i] in topo)
    && forall u: nat, v: nat :: u < |g| && v < |g| ==>
         (v in g[u] <==> Reports(topo, ids, u, v) || Reports(topo, ids, v, u))
  }

  /** The map after the first n nodes have been stored. */
  function Stored(m: map<Mac, Vid>, ids: seq<Mac>, padded: seq<Code>, n: nat): map<Mac, Vid>
    requires n <= |ids| == |padded|
  {
    if n == 0 then m else Stored(m, ids, padded, n - 1)[ids[n - 1] := PackedVid(padded[n - 1])]
  }

  lemma {:induction false} StoredOthers(m: map<Mac, Vid>, ids: seq<Mac>, padded: seq<Code>, n: nat, mac: Mac)
    requires n <= |ids| == |padded| && mac !in ids[..n]
    ensures mac in Stored(m, ids, padded, n) <==> mac in m
    ensures mac in m ==> Stored(m, ids, padded, n)[mac] == m[mac]
  {
    if n > 0 {
      assert ids[..n] == ids[..n - 1] + [ids[n - 1]];
      StoredOthers(m, ids, padded, n - 1, mac);
    }
  }

  lemma {:induction false} StoredOnes(m: map<Mac, Vid>, ids: seq<Mac>, padded: seq<Code>, n: nat, i: nat)
    requires i < n <= |ids| == |padded| && forall i, j :: 0 <= i < j < |ids| ==> ids[i] != ids[j]
    ensures ids[i] in Stored(m, ids, padded, n) && Stored(m, ids, padded, n)[ids[i]] == PackedVid(padded[i])
  {
    if i < n - 1 {
      StoredOnes(m, ids, padded, n - 1, i);
    }
  }

  const COST_BROADCAST_MS := 25000

  /** The node has reported within twice the broadcast interval. */
  predicate Reported(last: map<Mac, int>, m: Mac, now: int) {
    m in last && (now - last[m]) * 1000 <= 2 * COST_BROADCAST_MS
  }

  /** m without those of the given nodes that have not reported lately. */
  function Kept<T>(m: map<Mac, T>, nodes: set<Mac>, last: map<Mac, int>, now: int): map<Mac, T> {
    map k <- m.Keys | k !in nodes || Reported(last, k, now) :: m[k]
  }

  lemma KeptNext<T>(m: map<Mac, T>, nodes: set<Mac>, last: map<Mac, int>, now: int, node: Mac)
    requires node !in nodes
    ensures Kept(m, nodes + {node}, last, now) ==
            if Reported(last, node, now) then Kept(m, nodes, last, now) else Kept(m, nodes, last, now) - {node}
  {
  }

  class NetworkTopoVidAssignment {
    var networktopo: map<Mac, seq<Mac>>
    var ether2vid: map<Mac, Vid>
    /** When a node last reported, in seconds. */
    var lastNodeUpdateTime: map<Mac, int>

    constructor ()
      ensures networktopo == map[] && ether2vid == map[] && lastNodeUpdateTime == map[]
    {
      networktopo, ether2vid, lastNodeUpdateTime := map[], map[], map[];
    }

    /** Removes the nodes that have not reported lately, and their ids. */
    method RemoveOutdated(now: int)
      modifies this
      ensures networktopo == Kept(old(networktopo), old(networktopo).Keys, old(lastNodeUpdateTime), now)
      ensures ether2vid == Kept(old(ether2vid), old(networktopo).Keys, old(lastNodeUpdateTime), now)
      ensures lastNodeUpdateTime == Kept(old(lastNodeUpdateTime), old(networktopo).Keys, old(lastNodeUpdateTime), now)
    {
      var rest := networktopo.Keys;
      ghost var done: set<Mac> := {};
      while rest != {}
        invariant done !! rest && done + rest == old(networktopo).Keys
        invariant networktopo == Kept(old(networktopo), done, old(lastNodeUpdateTime), now)
        invariant ether2vid == Kept(old(ether2vid), done, old(lastNodeUpdateTime), now)
        invariant lastNodeUpdateTime == Kept(old(lastNodeUpdateTime), done, old(lastNodeUpdateTime), now)
      {
        var node :| node in rest;
        KeptNext(old(networktopo), done, old(lastNodeUpdateTime), now, node);
        KeptNext(old(ether2vid), done, old(lastNodeUpdateTime), now, node);
        KeptNext(old(lastNodeUpdateTime), done, old(lastNodeUpdateTime), now, node);
        rest, done := rest - {node}, done + {node};
        if !Reported(lastNodeUpdateTime, node, now) {
          networktopo, ether2vid := networktopo - {node}, ether2vid - {node};
          lastNodeUpdateTime := lastNodeUpdateTime - {node};
        }
      }
    }

    /** A directed edge, unless it is known. */
    method AddAnEdge(from: Mac, to: Mac) returns (added: bool)
      modifies this`networktopo
      ensures var before := if from in old(networktopo) then old(networktopo)[from] else [];
              && added == (to !in before)
              && networktopo == old(networktopo)[from := if added then before + [to] else before]
    {
      if from !in networktopo {
        networktopo := networktopo[from := []];
      }
      for i := 0 to |networktopo[from]|
        invariant from in networktopo
        invariant to !in networktopo[from][..i]
        invariant networktopo ==
                  old(networktopo)[from := if from in old(networktopo) then old(networktopo)[from] else []]
      {
        if networktopo[from][i] == to {
          return false;
        }
      }
      networktopo := networktopo[from := networktopo[from] + [to]];
      return true;
    }

    method NumberNodes() returns (ids: seq<Mac>, nodeids: map<Mac, nat>)
      ensures Numbering(networktopo, ids, nodeids)
    {
      ids, nodeids := [], map[];
      var rest := networktopo.Keys;
      while rest != {}
        invariant rest <= networktopo.Keys
        invariant nodeids.Keys == networktopo.Keys - rest
        invariant forall i :: 0 <= i < |ids| ==> ids[i] in nodeids && nodeids[ids[i]] == i
        invariant forall m :: m in nodeids ==> nodeids[m] < |ids| && ids[nodeids[m]] == m
      {
        var node :| node in rest;
        nodeids := nodeids[node := |ids|];
        ids := ids + [node];
        rest := rest - {node};
      }
    }

    /** Links a node to its reported neighbors, those that are nodes themselves, both ways. */
    method LearnNeighbors(ids: seq<Mac>, nodeids: map<Mac, nat>, g: Graph, u: nat) returns (g': Graph)
      requires Numbering(networktopo, ids, nodeids) && Valid(g) && |g| == |ids| && u < |g|
      ensures Valid(g') && |g'| == |g|
      ensures forall x: nat, y: nat {:trigger y in g'[x]} :: x < |g| && y < |g| ==>
                (y in g'[x] <==>
                 || y in g[x]
                 || (x == u && Reports(networktopo, ids, u, y))
                 || (y == u && Reports(networktopo, ids, u, x)))
    {
      g' := g;
      var neighbors := networktopo[ids[u]];
      for i := 0 to |neighbors|
        invariant Valid(g') && |g'| == |g|
        invariant forall x: nat, y: nat :: x < |g| && y < |g| ==>
                    (y in g'[x] <==>
                     y in g[x] || (x == u && ids[y] in neighbors[..i]) || (y == u && ids[x] in neighbors[..i]))
      {
        assert neighbors[..i + 1] == neighbors[..i] + [neighbors[i]];
        var neigh := neighbors[i];
        if neigh in nodeids {
          var v := nodeids[neigh];
          g' := g'[u := g'[u] + {v}];
          g' := g'[v := g'[v] + {u}];
        }
      }
      assert neighbors[..|neighbors|] == neighbors;
    }

    method LearnTopology(ids: seq<Mac>, nodeids: map<Mac, nat>) returns (g: Graph)
      requires Numbering(networktopo, ids, nodeids)
      ensures Valid(g) && Depicts(networktopo, ids, g)
    {
      g := seq(|ids|, _ => {});
      for u := 0 to |ids|
        invariant Valid(g) && |g| == |ids|
        invariant forall x: nat, y: nat :: x < |g| && y < |g| ==>
                    (y in g[x] <==>
                     (x < u && Reports(networktopo, ids, x, y)) || (y < u && Reports(networktopo, ids, y, x)))
      {
        ghost var before := g;
        g := LearnNeighbors(ids, nodeids, g, u);
        forall x: nat, y: nat | x < |g| && y < |g|
          ensures y in g[x] <==>
                  (x < u + 1 && Reports(networktopo, ids, x, y)) || (y < u + 1 && Reports(networktopo, ids, y, x))
        {
          assert y in g[x] <==>
                 || y in before[x]
                 || (x == u && Reports(networktopo, ids, u, y))
                 || (y == u && Reports(networktopo, ids, u, x));
        }
      }
    }

    /** Stores one id per node; reports whether a node had a different one. */
    method Store(ids: seq<Mac>, padded: seq<Code>) returns (changed: bool)
      requires |ids| == |padded| && forall i, j :: 0 <= i < j < |ids| ==> ids[i] != ids[j]
      modifies this`ether2vid
      ensures ether2vid == Stored(old(ether2vid), ids, padded, |ids|)
      ensures changed <==>
              exists i :: 0 <= i < |ids| && ids[i] in old(ether2vid) && old(ether2vid)[ids[i]] != PackedVid(padded[i])
    {
      changed := false;
      for i := 0 to |ids|
        invariant ether2vid == Stored(old(ether2vid), ids, padded, i)
        invariant changed <==>
                  exists j :: 0 <= j < i && ids[j] in old(ether2vid) && old(ether2vid)[ids[j]] != PackedVid(padded[j])
      {
        var vid := Pack(padded[i]);
        var mac := ids[i];
        StoredOthers(old(ether2vid), ids, padded, i, mac);
        if mac in ether2vid {
          if ether2vid[mac] != vid {
            changed := true;
            ether2vid := ether2vid[mac := vid];
          }
          assert ether2vid == ether2vid[mac := vid];
        } else {
          ether2vid := ether2vid[mac := vid];
        }
      }
    }

    /** Numbers the nodes and reads their graph off the database. */
    method ReadGraph() returns (ids: seq<Mac>, g: Graph)
      ensures Valid(g) && Depicts(networktopo, ids, g)
      ensures forall m :: m in networktopo ==> m in ids
      ensures forall i, j :: 0 <= i < j < |ids| ==> ids[i] != ids[j]
    {
      var nodeids;
      ids, nodeids := NumberNodes();
      g := LearnTopology(ids, nodeids);
    }

    /** The whole assignment, from the nodes that have reported lately. */
    method PerformVIDAssignment(now: int)
      returns (changed: bool, ghost ids: seq<Mac>, ghost g: Graph, ghost cl: seq<nat>, ghost codes: seq<Code>)
      modifies this
      ensures forall m :: m in networktopo <==> m in old(networktopo) && Reported(old(lastNodeUpdateTime), m, now)
      ensures forall m :: m in networktopo ==> networktopo[m] == old(networktopo)[m]
      ensures |networktopo| <= 1 ==> !changed && ether2vid == Known(old(ether2vid), old(networktopo), networktopo)
      ensures |networktopo| > 1 ==> Depicts(networktopo, ids, g) && (forall m :: m in networktopo ==> m in ids)
      ensures forall i, j :: 0 <= i < j < |ids| ==> ids[i] != ids[j]
      ensures |networktopo| > 1 ==> Valid(g) && |g| > 0 && Embedded(g, cl, codes)
      ensures |networktopo| > 1 && Loopless(g) && ConnectedIn(g, All(g)) ==>
                (Whole(g, cl, codes) <==> |g| <= MAXITER + 1)
      ensures |networktopo| > 1 ==>
                StoreOutcome(ids, codes, Known(old(ether2vid), old(networktopo), networktopo), ether2vid, changed)
    {
      RemoveOutdated(now);
      assert ether2vid == Known(old(ether2vid), old(networktopo), networktopo);
      ids, g, cl, codes, changed := [], [], [], [], false;
      if |networktopo| <= 1 {
        return;
      }
      var nodes, graph := ReadGraph();
      ids, g := nodes, graph;
      assert |nodes| > 0 by {
        assert networktopo.Keys != {};
        var m :| m in networktopo;
      }
      var clusters, grown, merges := Cluster(graph);
      cl, codes := clusters, grown;
      var padded := PadAll(grown);
      if |padded[0]| > 32 {
        changed := true;
        return;
      }
      assert padded == ExtendedAll(grown);
      changed := Store(nodes, padded);
    }
  }

  /** The ids of all but the nodes that were removed from the topology. */
  function Known(m: map<Mac, Vid>, before: map<Mac, seq<Mac>>, after: map<Mac, seq<Mac>>): map<Mac, Vid> {
    map k <- m.Keys | k !in before || k in after :: m[k]
  }

  /** Codes too long are reported as a change and not stored; others are stored, and a change
      is reported exactly when a node had a different id. */
  ghost predicate StoreOutcome(ids: seq<Mac>, codes: seq<Code>, before: map<Mac, Vid>, after: map<Mac, Vid>,
                               changed: bool) {
    && |codes| == |ids| > 0
    && if |codes[0]| > 32 then changed && after == before
       else
         && after == Stored(before, ids, ExtendedAll(codes), |ids|)
         && (changed <==>
             exists i :: 0 <= i < |ids| && ids[i] in before && before[ids[i]] != PackedVid(ExtendedAll(codes)[i]))
  }

  // ----- what the stored ids guarantee

  function ExtendedAll(codes: seq<Code>): (r: seq<Code>)
    requires |codes| > 0
    ensures |r| == |codes|
  {
    seq(|codes|, i requires 0 <= i < |codes| => Extended(codes[i], |codes[0]|))
  }

  function VidFor(codes: seq<Code>, i: nat): Vid
    requires i < |codes|
  {
    PackedVid(Extended(codes[i], |codes[0]|))
  }

  /** The stored map gives node i the id made of its code, and other addresses keep theirs. */
  lemma StoredVids(m: map<Mac, Vid>, ids: seq<Mac>, codes: seq<Code>, i: nat)
    requires |ids| == |codes| && i < |ids| && forall i, j :: 0 <= i < j < |ids| ==> ids[i] != ids[j]
    ensures var m' := Stored(m, ids, ExtendedAll(codes), |ids|);
            && ids[i] in m' && m'[ids[i]] == VidFor(codes, i)
            && forall mac :: mac !in ids ==> (mac in m' <==> mac in m) && (mac in m ==> m'[mac] == m[mac])
  {
    StoredOnes(m, ids, ExtendedAll(codes), |ids|, i);
    forall mac | mac !in ids
      ensures var m' := Stored(m, ids, ExtendedAll(codes), |ids|);
              (mac in m' <==> mac in m) && (mac in m ==> m'[mac] == m[mac])
    {
      StoredOthers(m, ids, ExtendedAll(codes), |ids|, mac);
    }
  }

  /** Codes fit whenever there are at most 32 nodes. */
  lemma FewNodesFit(g: Graph, cl: seq<nat>, codes: seq<Code>)
    requires Whole(g, cl, codes) && 0 < |g| <= 32
    ensures |codes[0]| <= |g|
  {
    assert Members(cl, cl[0]) == All(g);
  }

  lemma WholeLengths(g: Graph, cl: seq<nat>, codes: seq<Code>, i: nat, j: nat)
    requires Whole(g, cl, codes) && i < |g| && j < |g|
    ensures |codes[i]| == |codes[j]| && (i != j ==> codes[i] != codes[j])
  {
    assert Mates(cl, i, j);
  }

  /** Codes of at most 14 digits give ids within the 32 levels that are queried. */
  lemma ShortCodesWithinLevels(g: Graph, cl: seq<nat>, codes: seq<Code>, i: nat, j: nat)
    requires Whole(g, cl, codes) && i < |g| && j < |g| && |codes[0]| <= 14
    ensures Delta(VidFor(codes, i), VidFor(codes, j)) <= 32
  {
    WholeLengths(g, cl, codes, i, j);
    WholeLengths(g, cl, codes, i, 0);
    PackedDelta(codes[i], codes[j]);
  }

  /** Distinct nodes get distinct switch ids. */
  lemma VidsDistinct(g: Graph, cl: seq<nat>, codes: seq<Code>, i: nat, j: nat)
    requires Whole(g, cl, codes) && i < |g| && j < |g| && i != j && |codes[0]| <= 32
    ensures VidFor(codes, i) != VidFor(codes, j) && IsSwitch(VidFor(codes, i))
  {
    WholeLengths(g, cl, codes, i, j);
    WholeLengths(g, cl, codes, i, 0);
    PackedDelta(codes[i], codes[j]);
    DeltaZero(codes[i], codes[j]);
    DeltaZero(VidFor(codes, i), VidFor(codes, j));
  }

  /** The embedding guarantee: whenever some switch lies at distance k from x, a physical
      edge leads from switches nearer than k to x to switches at distance exactly k. */
  lemma EmbeddingGuarantee(g: Graph, cl: seq<nat>, codes: seq<Code>, i: nat, j: nat, k: nat) returns (a: nat, b: nat)
    requires Whole(g, cl, codes) && i < |g| && j < |g| && |codes[0]| <= 32
    requires Delta(VidFor(codes, i), VidFor(codes, j)) == k > 0
    ensures a < |g| && b < |g| && b in g[a]
    ensures Delta(VidFor(codes, i), VidFor(codes, a)) < k && Delta(VidFor(codes, i), VidFor(codes, b)) == k
  {
    WholeLengths(g, cl, codes, i, j);
    WholeLengths(g, cl, codes, i, 0);
    PackedDelta(codes[i], codes[j]);
    DeltaZero(codes[i], codes[j]);
    assert Mates(cl, i, j) && Crossed(g, cl, codes, i, Delta(codes[i], codes[j]));
    a, b :| Bridge(g, cl, codes, i, Delta(codes[i], codes[j]), a, b);
    WholeLengths(g, cl, codes, i, a);
    WholeLengths(g, cl, codes, i, b);
    PackedDelta(codes[i], codes[a]);
    PackedDelta(codes[i], codes[b]);
  }

  /** The nodes within distance k of node i, by their switch ids. */
  ghost function Subtree(codes: seq<Code>, i: nat, k: nat): set<nat>
    requires i < |codes|
  {
    set j: nat | j < |codes| && Delta(VidFor(codes, i), VidFor(codes, j)) <= k
  }

  /** Every subtree of the id trie is connected by physical edges inside it. */
  lemma TrieSubtreesConnected(g: Graph, cl: seq<nat>, codes: seq<Code>, i: nat, k: nat)
    requires Valid(g) && Whole(g, cl, codes) && i < |g| && |codes[0]| <= 32
    ensures ConnectedIn(g, Subtree(codes, i, k))
  {
    var shift := SuffixLen(|codes[0]|) + 16;
    var k' := if k < shift then 0 else k - shift;
    forall j: nat | j < |g|
      ensures Delta(VidFor(codes, i), VidFor(codes, j)) <= k <==> Delta(codes[i], codes[j]) <= k'
      ensures |codes[j]| == |codes[i]|
    {
      WholeLengths(g, cl, codes, i, j);
      WholeLengths(g, cl, codes, i, 0);
      PackedDelta(codes[i], codes[j]);
    }
    assert Subtree(codes, i, k) == Ball(codes, i, k');
    SubtreesConnected(g, cl, codes, k');
  }

  /** A network whose interfaces carry the assigned ids and whose edges include the graph's. */
  ghost predicate Deployed(net: Net, g: Graph, codes: seq<Code>) {
    && |codes| == |g|
    && (forall v: Vid :: v in net.sw <==> exists i :: 0 <= i < |g| && v == VidFor(codes, i))
    && (forall a: nat, b: nat :: a < |g| && b < |g| && b in g[a] ==> net.Edge(VidFor(codes, a), VidFor(codes, b)))
  }

  /** ... and there every inhabited distance has a gateway, as routing needs. */
  lemma AssignedIdsHaveGateways(net: Net, g: Graph, cl: seq<nat>, codes: seq<Code>, x: Vid, k: nat)
    requires Whole(g, cl, codes) && |g| > 0 && |codes[0]| <= 32 && Deployed(net, g, codes)
    requires x in net.sw && k > 0 && net.Inhabited(x, k)
    ensures exists h: Vid :: net.Gateway(x, k, h)
  {
    var y: Vid :| y in net.sw && Delta(x, y) == k;
    var i: nat :| i < |g| && x == VidFor(codes, i);
    var j: nat :| j < |g| && y == VidFor(codes, j);
    var a, b := EmbeddingGuarantee(g, cl, codes, i, j, k);
    assert net.GatewayVia(x, k, VidFor(codes, a), VidFor(codes, b));
    assert net.Gateway(x, k, VidFor(codes, a));
  }
}
