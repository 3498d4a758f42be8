/** Clusters of nodes with binary codes: what every merge of two adjacent clusters keeps,
    and what that means once a single cluster is left. */
module Embedding {
  import opened VidBits
  import opened Graph

  type Code = seq<bool>

  function Low(s: nat, t: nat): nat {
    if s < t then s else t
  }

  function High(s: nat, t: nat): nat {
    if s < t then t else s
  }

  /** cl[i] is the label of node i's cluster, codes[i] its code so far. */
  ghost predicate Shaped(g: Graph, cl: seq<nat>, codes: seq<Code>) {
    && |cl| == |codes| == |g|
    && (forall i :: 0 <= i < |g| ==> cl[i] < |g| && cl[cl[i]] == cl[i])
    && (forall i, j :: 0 <= i < |g| && 0 <= j < |g| && cl[i] == cl[j] ==> |codes[i]| == |codes[j]|)
  }

  predicate Mates(cl: seq<nat>, i: nat, j: nat) {
    i < |cl| && j < |cl| && cl[i] == cl[j]
  }

  ghost function Members(cl: seq<nat>, c: nat): set<nat> {
    set i: nat | 0 <= i < |cl| && cl[i] == c
  }

  /** Cluster mates have different codes. */
  ghost predicate Distinct(g: Graph, cl: seq<nat>, codes: seq<Code>)
    requires Shaped(g, cl, codes)
  {
    forall i: nat, j: nat :: Mates(cl, i, j) && i != j ==> codes[i] != codes[j]
  }

  /** Edge a-b leads from nodes nearer than k to i to nodes at distance k from i. */
  ghost predicate Bridge(g: Graph, cl: seq<nat>, codes: seq<Code>, i: nat, k: nat, a: nat, b: nat)
    requires Shaped(g, cl, codes)
  {
    && Mates(cl, i, a) && Mates(cl, i, b) && b in g[a]
    && Delta(codes[i], codes[a]) < k && Delta(codes[i], codes[b]) == k
  }

  ghost predicate Crossed(g: Graph, cl: seq<nat>, codes: seq<Code>, i: nat, k: nat)
    requires Shaped(g, cl, codes)
  {
    exists a: nat, b: nat :: Bridge(g, cl, codes, i, k, a, b)
  }

  /** Whenever a mate lies at distance k there is an edge across that level. */
  ghost predicate Bridged(g: Graph, cl: seq<nat>, codes: seq<Code>)
    requires Shaped(g, cl, codes)
  {
    forall i: nat, j: nat {:trigger Crossed(g, cl, codes, i, Delta(codes[i], codes[j]))} ::
      Mates(cl, i, j) && i != j ==> Crossed(g, cl, codes, i, Delta(codes[i], codes[j]))
  }

  /** A code no longer than the cluster is large, and long enough to tell its members apart. */
  ghost predicate Sized(g: Graph, cl: seq<nat>, codes: seq<Code>)
    requires Shaped(g, cl, codes)
  {
    forall i :: 0 <= i < |g| ==> SizeFits(|codes[i]|, |Members(cl, cl[i])|)
  }

  /** A cluster of this size can have codes of length len. */
  predicate SizeFits(len: nat, size: nat) {
    1 <= len <= size <= Pow2(len - 1)
  }

  ghost predicate Embedded(g: Graph, cl: seq<nat>, codes: seq<Code>) {
    Shaped(g, cl, codes) && Distinct(g, cl, codes) && Bridged(g, cl, codes) && Sized(g, cl, codes)
  }

  // ----- the start: every node alone, with the code 1

  lemma InitiallyEmbedded(g: Graph, cl: seq<nat>, codes: seq<Code>)
    requires |cl| == |codes| == |g| && forall i :: 0 <= i < |g| ==> cl[i] == i && codes[i] == [true]
    ensures Embedded(g, cl, codes)
  {
    forall i | 0 <= i < |g|
      ensures |Members(cl, cl[i])| == 1
    {
      assert Members(cl, cl[i]) == {i};
    }
  }

  // ----- one merge

  /** A code padded on the left with zeros to a given length. */
  function Padded(c: Code, len: nat): (r: Code)
    requires |c| <= len
    ensures |r| == len
  {
    Zeros(len - |c|) + c
  }

  /** The state after clusters s and t, with codes padded to length len, became one. */
  ghost predicate Merged(cl: seq<nat>, codes: seq<Code>, s: nat, t: nat, len: nat, cl': seq<nat>, codes': seq<Code>)
    requires |cl| == |codes|
  {
    && |cl'| == |codes'| == |cl|
    && forall i :: 0 <= i < |cl| ==>
         if cl[i] == t then
           |codes[i]| <= len && codes'[i] == [false] + Padded(codes[i], len) && cl'[i] == Low(s, t)
         else if cl[i] == s then
           |codes[i]| <= len && codes'[i] == [true] + Padded(codes[i], len) && cl'[i] == Low(s, t)
         else
           codes'[i] == codes[i] && cl'[i] == cl[i]
  }

  lemma {:induction false} PrefixDelta(p: seq<bool>, a: seq<bool>, b: seq<bool>)
    requires |a| == |b|
    ensures Delta(p + a, p + b) == Delta(a, b)
  {
    if p == [] {
      assert p + a == a && p + b == b;
    } else {
      assert (p + a)[1..] == p[1..] + a && (p + b)[1..] == p[1..] + b;
      PrefixDelta(p[1..], a, b);
    }
  }

  /** Distances inside a cluster survive the merge; across the two clusters the distance is
      the new code length. */
  lemma MergeDelta(g: Graph, cl: seq<nat>, codes: seq<Code>, s: nat, t: nat, len: nat, cl': seq<nat>,
                   codes': seq<Code>, i: nat, j: nat)
    requires Shaped(g, cl, codes) && Merged(cl, codes, s, t, len, cl', codes') && s != t
    requires i < |cl| && j < |cl|
    ensures Mates(cl, i, j) ==> |codes'[i]| == |codes'[j]| && Delta(codes'[i], codes'[j]) == Delta(codes[i], codes[j])
    ensures (cl[i] == s && cl[j] == t) || (cl[i] == t && cl[j] == s) ==>
              |codes'[i]| == |codes'[j]| == len + 1 && Delta(codes'[i], codes'[j]) == len + 1
  {
    if Mates(cl, i, j) && (cl[i] == s || cl[i] == t) {
      var p := [cl[i] == s] + Zeros(len - |codes[i]|);
      assert codes'[i] == p + codes[i] && codes'[j] == p + codes[j];
      PrefixDelta(p, codes[i], codes[j]);
    }
  }

  lemma MergeShaped(g: Graph, cl: seq<nat>, codes: seq<Code>, s: nat, t: nat, len: nat, cl': seq<nat>,
                    codes': seq<Code>)
    requires Shaped(g, cl, codes) && Merged(cl, codes, s, t, len, cl', codes') && s != t
    requires s < |g| && t < |g| && cl[s] == s && cl[t] == t
    ensures Shaped(g, cl', codes')
    ensures forall i: nat, j: nat :: Mates(cl', i, j) <==>
              Mates(cl, i, j) || (i < |cl| && j < |cl| && (cl[i] == s || cl[i] == t) && (cl[j] == s || cl[j] == t))
  {
    forall i, j | 0 <= i < |g| && 0 <= j < |g| && cl'[i] == cl'[j]
      ensures |codes'[i]| == |codes'[j]|
    {
      MergeDelta(g, cl, codes, s, t, len, cl', codes', i, j);
    }
  }

  lemma MergeDistinct(g: Graph, cl: seq<nat>, codes: seq<Code>, s: nat, t: nat, len: nat, cl': seq<nat>,
                      codes': seq<Code>)
    requires Shaped(g, cl, codes) && Distinct(g, cl, codes) && Merged(cl, codes, s, t, len, cl', codes') && s != t
    requires s < |g| && t < |g| && cl[s] == s && cl[t] == t
    ensures Shaped(g, cl', codes') && Distinct(g, cl', codes')
  {
    MergeShaped(g, cl, codes, s, t, len, cl', codes');
    forall i: nat, j: nat | Mates(cl', i, j) && i != j
      ensures codes'[i] != codes'[j]
    {
      MergeDelta(g, cl, codes, s, t, len, cl', codes', i, j);
      DeltaZero(codes'[i], codes'[j]);
      if Mates(cl, i, j) {
        DeltaZero(codes[i], codes[j]);
      }
    }
  }

  lemma MergeBridged(g: Graph, cl: seq<nat>, codes: seq<Code>, s: nat, t: nat, len: nat, cl': seq<nat>,
                     codes': seq<Code>, u: nat, v: nat)
    requires Valid(g) && Shaped(g, cl, codes) && Bridged(g, cl, codes) && Merged(cl, codes, s, t, len, cl', codes')
             && s != t
    requires s < |g| && t < |g| && cl[s] == s && cl[t] == t
    requires u < |g| && v < |g| && v in g[u] && cl[u] == s && cl[v] == t
    ensures Shaped(g, cl', codes') && Bridged(g, cl', codes')
  {
    MergeShaped(g, cl, codes, s, t, len, cl', codes');
    forall i: nat, j: nat | Mates(cl', i, j) && i != j
      ensures Crossed(g, cl', codes', i, Delta(codes'[i], codes'[j]))
    {
      MergeDelta(g, cl, codes, s, t, len, cl', codes', i, j);
      if Mates(cl, i, j) {
        assert Crossed(g, cl, codes, i, Delta(codes[i], codes[j]));
        var a: nat, b: nat :| Bridge(g, cl, codes, i, Delta(codes[i], codes[j]), a, b);
        MergeDelta(g, cl, codes, s, t, len, cl', codes', i, a);
        MergeDelta(g, cl, codes, s, t, len, cl', codes', i, b);
        assert Bridge(g, cl', codes', i, Delta(codes'[i], codes'[j]), a, b);
      } else {
        var a, b := if cl[i] == s then u else v, if cl[i] == s then v else u;
        MergeDelta(g, cl, codes, s, t, len, cl', codes', i, a);
        MergeDelta(g, cl, codes, s, t, len, cl', codes', i, b);
        assert Delta(codes[i], codes[a]) <= |codes[i]| <= len;
        assert Bridge(g, cl', codes', i, Delta(codes'[i], codes'[j]), a, b);
      }
    }
  }

  lemma MembersMerge(cl: seq<nat>, s: nat, t: nat, m: nat, cl': seq<nat>)
    requires |cl'| == |cl| && s != t && m in {s, t}
    requires forall i :: 0 <= i < |cl| ==> cl'[i] == if cl[i] == s || cl[i] == t then m else cl[i]
    ensures |Members(cl', m)| == |Members(cl, s)| + |Members(cl, t)|
    ensures forall c :: c != s && c != t ==> Members(cl', c) == Members(cl, c)
  {
    assert Members(cl', m) == Members(cl, s) + Members(cl, t);
    assert Members(cl, s) !! Members(cl, t);
  }

  lemma SizesAdd(ls: nat, ms: nat, lt: nat, mt: nat, len: nat)
    requires 1 <= ls <= ms <= Pow2(ls - 1) && 1 <= lt <= mt <= Pow2(lt - 1) && ls <= len && lt <= len
    requires len == ls || len == lt
    ensures 1 <= len + 1 <= ms + mt <= Pow2(len)
  {
    Pow2Mono(ls - 1, len - 1);
    Pow2Mono(lt - 1, len - 1);
  }

  lemma MergeSized(g: Graph, cl: seq<nat>, codes: seq<Code>, s: nat, t: nat, len: nat, cl': seq<nat>, codes': seq<Code>)
    requires Shaped(g, cl, codes) && Sized(g, cl, codes) && Merged(cl, codes, s, t, len, cl', codes') && s != t
    requires s < |g| && t < |g| && cl[s] == s && cl[t] == t
    requires len == |codes[s]| || len == |codes[t]|
    ensures Shaped(g, cl', codes') && Sized(g, cl', codes')
  {
    MergeShaped(g, cl, codes, s, t, len, cl', codes');
    MembersMerge(cl, s, t, Low(s, t), cl');
    var ls, lt := |codes[s]|, |codes[t]|;
    assert 1 <= ls <= |Members(cl, s)| <= Pow2(ls - 1);
    assert 1 <= lt <= |Members(cl, t)| <= Pow2(lt - 1);
    SizesAdd(ls, |Members(cl, s)|, lt, |Members(cl, t)|, len);
    forall i | 0 <= i < |g|
      ensures SizeFits(|codes'[i]|, |Members(cl', cl'[i])|)
    {
      assert SizeFits(|codes[i]|, |Members(cl, cl[i])|);
    }
    assert forall i :: 0 <= i < |g| ==> SizeFits(|codes'[i]|, |Members(cl', cl'[i])|);
  }

  /** Merging two adjacent clusters keeps the embedding. */
  lemma MergeEmbedded(g: Graph, cl: seq<nat>, codes: seq<Code>, s: nat, t: nat, len: nat, cl': seq<nat>,
                      codes': seq<Code>, u: nat, v: nat)
    requires Valid(g) && Embedded(g, cl, codes) && Merged(cl, codes, s, t, len, cl', codes') && s != t
    requires s < |g| && t < |g| && cl[s] == s && cl[t] == t
    requires len == |codes[s]| || len == |codes[t]|
    requires u < |g| && v < |g| && v in g[u] && cl[u] == s && cl[v] == t
    ensures Embedded(g, cl', codes')
  {
    MergeDistinct(g, cl, codes, s, t, len, cl', codes');
    MergeBridged(g, cl, codes, s, t, len, cl', codes', u, v);
    MergeSized(g, cl, codes, s, t, len, cl', codes');
  }

  // ----- the quotient graph of the clusters

  ghost function Labels(cl: seq<nat>): set<nat> {
    set i: nat | 0 <= i < |cl| :: cl[i]
  }

  /** An edge joins the clusters labelled c and d. */
  ghost predicate Joined(g: Graph, cl: seq<nat>, c: nat, d: nat)
    requires |cl| == |g|
  {
    exists u, v :: 0 <= u < |g| && 0 <= v < |g| && v in g[u] && cl[u] == c && cl[v] == d
  }

  /** A row lists exactly the labels of clusters adjacent to c, marked 1; c itself is listed
      only while it is a single node with a loop. */
  ghost predicate Row(g: Graph, cl: seq<nat>, c: nat, row: map<nat, nat>)
    requires |cl| == |g|
  {
    && (forall d :: d in row ==> row[d] == 1)
    && (forall d :: d in row <==> Joined(g, cl, c, d) && (c != d || Members(cl, c) == {c}))
  }

  /** topo is the quotient of the graph by the clusters. */
  ghost predicate Quotient(g: Graph, cl: seq<nat>, topo: map<nat, map<nat, nat>>)
    requires |cl| == |g|
  {
    topo.Keys == Labels(cl) && forall c :: c in topo ==> Row(g, cl, c, topo[c])
  }

  /** The labels after clusters s and t became one. */
  ghost predicate Relabelled(cl: seq<nat>, s: nat, t: nat, cl': seq<nat>) {
    && |cl'| == |cl|
    && forall i :: 0 <= i < |cl| ==> cl'[i] == if cl[i] == s || cl[i] == t then Low(s, t) else cl[i]
  }

  lemma JoinedMerged(g: Graph, cl: seq<nat>, s: nat, t: nat, cl': seq<nat>, c: nat, d: nat)
    requires |cl| == |g| && Relabelled(cl, s, t, cl')
    requires c != s && c != t && d != s && d != t
    ensures var m := Low(s, t);
            && (Joined(g, cl', c, d) <==> Joined(g, cl, c, d))
            && (Joined(g, cl', c, m) <==> Joined(g, cl, c, s) || Joined(g, cl, c, t))
            && (Joined(g, cl', m, d) <==> Joined(g, cl, s, d) || Joined(g, cl, t, d))
  {
  }

  /** The labels of a row after s and t became one. */
  ghost predicate RowMerged(row: map<nat, nat>, s: nat, t: nat, row': map<nat, nat>) {
    && (forall d :: d in row' ==> row'[d] == 1)
    && forall d :: d in row' <==> (d != s && d != t && d in row) || (d == Low(s, t) && (s in row || t in row))
  }

  /** Every row is relabelled; the surviving cluster has both clusters' neighbors. */
  ghost predicate RowsMerged(topo: map<nat, map<nat, nat>>, s: nat, t: nat, topo': map<nat, map<nat, nat>>) {
    && s != t && s in topo && t in topo
    && topo'.Keys == topo.Keys - {High(s, t)}
    && (forall c :: c in topo' && c != s && c != t ==> RowMerged(topo[c], s, t, topo'[c]))
    && (forall d :: d in topo'[Low(s, t)] ==> topo'[Low(s, t)][d] == 1)
    && (forall d :: d in topo'[Low(s, t)] <==> d != s && d != t && (d in topo[s] || d in topo[t]))
  }

  lemma NoHigh(cl: seq<nat>, s: nat, t: nat, cl': seq<nat>)
    requires Relabelled(cl, s, t, cl') && s != t
    ensures forall v :: 0 <= v < |cl'| ==> cl'[v] != High(s, t)
  {
  }

  lemma OtherRow(g: Graph, cl: seq<nat>, s: nat, t: nat, cl': seq<nat>, c: nat, row: map<nat, nat>, row': map<nat, nat>)
    requires |cl| == |g| && Relabelled(cl, s, t, cl') && s != t && c != s && c != t
    requires Row(g, cl, c, row) && RowMerged(row, s, t, row')
    ensures Row(g, cl', c, row')
  {
    assert Members(cl', c) == Members(cl, c);
    forall d
      ensures d in row' <==> Joined(g, cl', c, d) && (c != d || Members(cl', c) == {c})
    {
      if d == High(s, t) {
        NoHigh(cl, s, t, cl');
      } else {
        JoinedMerged(g, cl, s, t, cl', c, if d == Low(s, t) then c else d);
      }
    }
  }

  lemma NewRow(g: Graph, cl: seq<nat>, s: nat, t: nat, cl': seq<nat>, rowS: map<nat, nat>, rowT: map<nat, nat>,
               row': map<nat, nat>)
    requires |cl| == |g| && Relabelled(cl, s, t, cl') && s != t && s in Labels(cl) && t in Labels(cl)
    requires Row(g, cl, s, rowS) && Row(g, cl, t, rowT)
    requires forall d :: d in row' ==> row'[d] == 1
    requires forall d :: d in row' <==> d != s && d != t && (d in rowS || d in rowT)
    ensures Row(g, cl', Low(s, t), row')
  {
    var m := Low(s, t);
    MergedIsNotSingle(cl, s, t, cl');
    forall d
      ensures d in row' <==> Joined(g, cl', m, d) && (m != d || Members(cl', m) == {m})
    {
      if d == High(s, t) {
        NoHigh(cl, s, t, cl');
      } else if d != m {
        SelfOrOther(g, cl, s, t, cl', d);
      }
    }
  }

  lemma LabelsMerged(cl: seq<nat>, s: nat, t: nat, cl': seq<nat>)
    requires Relabelled(cl, s, t, cl') && s != t && s in Labels(cl) && t in Labels(cl)
    ensures Labels(cl') == Labels(cl) - {High(s, t)}
  {
    forall c | c in Labels(cl) - {High(s, t)}
      ensures c in Labels(cl')
    {
      var j: nat :| j < |cl| && cl[j] == c;
      assert cl'[j] == c;
    }
    forall c | c in Labels(cl')
      ensures c in Labels(cl) - {High(s, t)}
    {
      var j: nat :| j < |cl'| && cl'[j] == c;
      assert cl[j] in Labels(cl);
    }
  }

  /** If every row is relabelled and the removed cluster's row is folded into the surviving
      one, without its own label, the result is the quotient by the merged clusters. */
  lemma QuotientMerged(g: Graph, cl: seq<nat>, topo: map<nat, map<nat, nat>>, s: nat, t: nat, cl': seq<nat>,
                       topo': map<nat, map<nat, nat>>)
    requires |cl| == |g| && Quotient(g, cl, topo) && Relabelled(cl, s, t, cl')
    requires RowsMerged(topo, s, t, topo')
    ensures Quotient(g, cl', topo')
    ensures Labels(cl') == Labels(cl) - {High(s, t)}
  {
    LabelsMerged(cl, s, t, cl');
    forall c | c in topo'
      ensures Row(g, cl', c, topo'[c])
    {
      if c == Low(s, t) {
        NewRow(g, cl, s, t, cl', topo[s], topo[t], topo'[c]);
      } else {
        OtherRow(g, cl, s, t, cl', c, topo[c], topo'[c]);
      }
    }
  }

  lemma SelfOrOther(g: Graph, cl: seq<nat>, s: nat, t: nat, cl': seq<nat>, d: nat)
    requires |cl| == |g| && Relabelled(cl, s, t, cl') && d != s && d != t
    ensures Joined(g, cl', Low(s, t), d) <==> Joined(g, cl, s, d) || Joined(g, cl, t, d)
  {
  }

  lemma MergedIsNotSingle(cl: seq<nat>, s: nat, t: nat, cl': seq<nat>)
    requires Relabelled(cl, s, t, cl') && s != t && s in Labels(cl) && t in Labels(cl)
    ensures var m := Low(s, t); Members(cl', m) != {m}
  {
    var m := Low(s, t);
    var i: nat :| i < |cl| && cl[i] == s;
    var j: nat :| j < |cl| && cl[j] == t;
    assert i in Members(cl', m) && j in Members(cl', m) && i != j;
  }

  /** In a connected graph no cluster is without a neighbor while there are two. */
  lemma ClusterHasNeighbor(g: Graph, cl: seq<nat>, c: nat, d: nat)
    requires Valid(g) && ConnectedIn(g, All(g)) && |cl| == |g| && c in Labels(cl) && d in Labels(cl) && c != d
    ensures exists e :: e != c && e in Labels(cl) && Joined(g, cl, c, e)
  {
    var i: nat :| i < |cl| && cl[i] == c;
    var j: nat :| j < |cl| && cl[j] == d;
    assert Linked(g, All(g), i, j);
    var p :| Path(g, All(g), p, i, j);
    var u, v := Crossing(g, All(g), p, i, j, Members(cl, c));
    assert Joined(g, cl, c, cl[v]);
  }

  // ----- one cluster left

  ghost function Ball(codes: seq<Code>, i: nat, k: nat): set<nat>
    requires i < |codes| && forall j :: 0 <= j < |codes| ==> |codes[j]| == |codes[i]|
  {
    set j: nat | 0 <= j < |codes| && Delta(codes[i], codes[j]) <= k
  }

  ghost predicate Whole(g: Graph, cl: seq<nat>, codes: seq<Code>) {
    Embedded(g, cl, codes) && forall i, j :: 0 <= i < |g| && 0 <= j < |g| ==> cl[i] == cl[j]
  }

  lemma SmallestBall(g: Graph, cl: seq<nat>, codes: seq<Code>, i: nat)
    requires Whole(g, cl, codes) && i < |g|
    ensures Ball(codes, i, 0) == {i}
  {
    forall j: nat | j < |g|
      ensures Delta(codes[i], codes[j]) <= 0 <==> j == i
    {
      DeltaZero(codes[i], codes[j]);
      assert Mates(cl, i, j);
    }
  }

  lemma LargerBall(g: Graph, cl: seq<nat>, codes: seq<Code>, i: nat, k: nat, j: nat) returns (a: nat, b: nat)
    requires Whole(g, cl, codes) && i < |g| && k > 0 && j < |g| && Delta(codes[i], codes[j]) == k
    ensures a < |g| && b < |g| && b in g[a]
    ensures Ball(codes, i, k) == Ball(codes, i, k - 1) + Ball(codes, b, k - 1)
    ensures a in Ball(codes, i, k - 1) && b in Ball(codes, b, k - 1)
  {
    DeltaZero(codes[i], codes[i]);
    assert Mates(cl, i, j) && i != j;
    assert Crossed(g, cl, codes, i, Delta(codes[i], codes[j]));
    a, b :| Bridge(g, cl, codes, i, k, a, b);
    BallSplits(g, codes, i, k, b);
    DeltaZero(codes[b], codes[b]);
  }

  /** A ball is the next smaller one, or two of them joined by an edge. */
  lemma BallGrows(g: Graph, cl: seq<nat>, codes: seq<Code>, i: nat, k: nat) returns (grows: bool, a: nat, b: nat)
    requires Whole(g, cl, codes) && i < |g| && k > 0
    ensures !grows ==> Ball(codes, i, k) == Ball(codes, i, k - 1)
    ensures grows ==> a < |g| && b < |g| && b in g[a]
                      && Ball(codes, i, k) == Ball(codes, i, k - 1) + Ball(codes, b, k - 1)
                      && a in Ball(codes, i, k - 1) && b in Ball(codes, b, k - 1)
  {
    grows, a, b := false, 0, 0;
    if j: nat :| j < |g| && Delta(codes[i], codes[j]) == k {
      grows := true;
      a, b := LargerBall(g, cl, codes, i, k, j);
    } else {
      BallSame(codes, i, k);
    }
  }

  lemma NextBallConnected(g: Graph, cl: seq<nat>, codes: seq<Code>, i: nat, h: nat)
    requires Valid(g) && Whole(g, cl, codes) && i < |g|
    requires forall j: nat :: j < |g| ==> ConnectedIn(g, Ball(codes, j, h))
    ensures ConnectedIn(g, Ball(codes, i, h + 1))
  {
    var grows, a, b := BallGrows(g, cl, codes, i, h + 1);
    if grows {
      JoinInto(g, Ball(codes, i, h), Ball(codes, b, h), Ball(codes, i, h + 1), a, b);
    }
  }

  /** Every subtree of the trie is connected by edges between its own members. */
  lemma {:induction false} SubtreesConnected(g: Graph, cl: seq<nat>, codes: seq<Code>, k: nat)
    requires Valid(g) && Whole(g, cl, codes)
    ensures forall i: nat :: i < |g| ==> ConnectedIn(g, Ball(codes, i, k))
    decreases k
  {
    if k > 0 {
      SubtreesConnected(g, cl, codes, k - 1);
    }
    forall i: nat | i < |g|
      ensures ConnectedIn(g, Ball(codes, i, k))
    {
      if k == 0 {
        SmallestBall(g, cl, codes, i);
        SingletonConnected(g, i);
      } else {
        NextBallConnected(g, cl, codes, i, k - 1);
      }
    }
  }

  lemma JoinInto(g: Graph, s: set<nat>, t: set<nat>, all: set<nat>, a: nat, b: nat)
    requires Valid(g) && ConnectedIn(g, s) && ConnectedIn(g, t) && all == s + t
    requires a in s && b in t && a < |g| && b < |g| && b in g[a]
    ensures ConnectedIn(g, all)
  {
    JoinConnected(g, s, t, a, b);
  }

  lemma BallSame(codes: seq<Code>, i: nat, k: nat)
    requires i < |codes| && k > 0 && forall j :: 0 <= j < |codes| ==> |codes[j]| == |codes[i]|
    requires forall j: nat :: j < |codes| ==> Delta(codes[i], codes[j]) != k
    ensures Ball(codes, i, k) == Ball(codes, i, k - 1)
  {
  }

  lemma BallSplits(g: Graph, codes: seq<Code>, i: nat, k: nat, b: nat)
    requires i < |codes| && b < |codes| && k > 0
    requires forall j :: 0 <= j < |codes| ==> |codes[j]| == |codes[i]|
    requires Delta(codes[i], codes[b]) == k
    ensures Ball(codes, i, k) == Ball(codes, i, k - 1) + Ball(codes, b, k - 1)
  {
    forall j: nat | j < |codes|
      ensures Delta(codes[i], codes[j]) <= k <==> Delta(codes[i], codes[j]) < k || Delta(codes[b], codes[j]) < k
    {
      DeltaSym(codes[i], codes[b]);
      DeltaUltra(codes[b], codes[i], codes[j]);
      DeltaUltra(codes[i], codes[b], codes[j]);
    }
  }
}
