/** The controller's embedding of the network into a binary trie: clusters of nodes are
    merged, smallest first, until one is left; the codes grown on the way are padded and
    packed into switch ids. */
module VidAssignment {
  import opened Graph
  import opened Embedding

  type Mac = nat

  const MAXITER := 5000

  // ----- one iteration of the clustering loop, piece by piece

  /** How many nodes each label has. */
  method ClusterSizes(cl: seq<nat>) returns (sizes: map<nat, nat>)
    ensures sizes.Keys == Labels(cl)
    ensures forall c :: c in sizes ==> sizes[c] == |Members(cl, c)|
  {
    sizes := map[];
    for i := 0 to |cl|
      invariant sizes.Keys == Labels(cl[..i])
      invariant forall c :: c in sizes ==> sizes[c] == |Members(cl[..i], c)|
    {
      var c := cl[i];
      if c !in sizes {
        sizes := sizes[c := 0];
        assert Members(cl[..i], c) == {};
      }
      sizes := sizes[c := sizes[c] + 1];
      MembersGrow(cl, i);
    }
    assert cl[..|cl|] == cl;
  }

  lemma MembersGrow(cl: seq<nat>, i: nat)
    requires i < |cl|
    ensures Labels(cl[..i + 1]) == Labels(cl[..i]) + {cl[i]}
    ensures |Members(cl[..i + 1], cl[i])| == |Members(cl[..i], cl[i])| + 1
    ensures forall c :: c != cl[i] ==> Members(cl[..i + 1], c) == Members(cl[..i], c)
  {
    assert cl[..i + 1] == cl[..i] + [cl[i]];
    assert Members(cl[..i + 1], cl[i]) == Members(cl[..i], cl[i]) + {i};
    forall c
      ensures c in Labels(cl[..i + 1]) <==> c in Labels(cl[..i]) + {cl[i]}
    {
      if c in Labels(cl[..i]) {
        var j: nat :| j < i && cl[..i][j] == c;
        assert cl[..i + 1][j] == c;
      }
      assert cl[..i + 1][i] == cl[i];
    }
  }

  /** A label of least size, 0 unless another is strictly smaller. */
  method SmallestCluster(sizes: map<nat, nat>) returns (smallest: nat)
    requires 0 in sizes
    ensures smallest in sizes && forall c :: c in sizes ==> sizes[smallest] <= sizes[c]
    ensures sizes[smallest] == sizes[0] ==> smallest == 0
  {
    smallest := 0;
    var rest := sizes.Keys;
    while rest != {}
      invariant rest <= sizes.Keys && smallest in sizes
      invariant forall c :: c in sizes && c !in rest ==> sizes[smallest] <= sizes[c]
      invariant sizes[smallest] <= sizes[0] && (sizes[smallest] == sizes[0] ==> smallest == 0)
    {
      var c :| c in rest;
      if sizes[c] < sizes[smallest] {
        smallest := c;
      }
      rest := rest - {c};
    }
  }

  /** A marked neighbor of least size, or -1. */
  method SecondCluster(row: map<nat, nat>, sizes: map<nat, nat>) returns (second: int)
    requires row.Keys <= sizes.Keys && forall c :: c in sizes ==> sizes[c] > 0
    ensures second == -1 <==> forall c :: c in row ==> row[c] == 0
    ensures second != -1 ==> second >= 0 && second in row && row[second] != 0
    ensures second != -1 ==> forall c :: c in row && row[c] != 0 ==> sizes[second] <= sizes[c]
  {
    second := -1;
    var rest := row.Keys;
    while rest != {}
      invariant rest <= row.Keys
      invariant second == -1 <==> forall c :: c in row && c !in rest ==> row[c] == 0
      invariant second != -1 ==> second >= 0 && second in row && second !in rest && row[second] != 0
      invariant second != -1 ==> forall c :: c in row && c !in rest && row[c] != 0 ==> sizes[second] <= sizes[c]
    {
      var c :| c in rest;
      if row[c] != 0 {
        if second == -1 || sizes[second] > sizes[c] {
          second := c;
        }
      }
      rest := rest - {c};
    }
  }

  /** Code length of the last node found in each of the two clusters, or -1. */
  method CodeLengths(cl: seq<nat>, codes: seq<Code>, smallest: nat, second: int) returns (len1: int, len2: int)
    requires |cl| == |codes|
    ensures len2 == -1 <==> forall i :: 0 <= i < |cl| ==> cl[i] != second
    ensures len2 != -1 ==> exists i :: 0 <= i < |cl| && cl[i] == second && len2 == |codes[i]|
    ensures len1 == -1 <==> forall i :: 0 <= i < |cl| ==> cl[i] == second || cl[i] != smallest
    ensures len1 != -1 ==> exists i :: 0 <= i < |cl| && cl[i] != second && cl[i] == smallest && len1 == |codes[i]|
  {
    len1, len2 := -1, -1;
    for i := 0 to |cl|
      invariant len2 == -1 <==> forall j :: 0 <= j < i ==> cl[j] != second
      invariant len2 != -1 ==> exists j :: 0 <= j < i && cl[j] == second && len2 == |codes[j]|
      invariant len1 == -1 <==> forall j :: 0 <= j < i ==> cl[j] == second || cl[j] != smallest
      invariant len1 != -1 ==> exists j :: 0 <= j < i && cl[j] != second && cl[j] == smallest && len1 == |codes[j]|
    {
      if cl[i] == second {
        len2 := |codes[i]|;
      } else if cl[i] == smallest {
        len1 := |codes[i]|;
      }
    }
  }

  /** The shorter codes of the two clusters get leading zeros. */
  method PadCodes(cl: seq<nat>, codes: seq<Code>, smallest: nat, second: int, len: nat) returns (padded: seq<Code>)
    requires |cl| == |codes|
    ensures |padded| == |codes|
    ensures forall i :: 0 <= i < |cl| ==>
              padded[i] ==
              if (cl[i] == second || cl[i] == smallest) && |codes[i]| <= len then Padded(codes[i], len) else codes[i]
  {
    padded := codes;
    for i := 0 to |cl|
      invariant |padded| == |codes|
      invariant forall j :: 0 <= j < |cl| ==>
                  padded[j] == if j < i && (cl[j] == second || cl[j] == smallest) && |codes[j]| <= len
                               then Padded(codes[j], len) else codes[j]
    {
      if cl[i] == second || cl[i] == smallest {
        var code := codes[i];
        while |code| < len
          invariant |codes[i]| <= |code| && (|codes[i]| <= len ==> |code| <= len && code == Padded(codes[i], |code|))
          invariant |codes[i]| > len ==> code == codes[i]
          decreases len - |code|
        {
          code := [false] + code;
        }
        padded := padded[i := code];
      }
    }
  }

  /** The two clusters become one, told apart by a new leading bit. */
  method MergeClusters(cl: seq<nat>, codes: seq<Code>, smallest: nat, second: nat)
    returns (cl': seq<nat>, codes': seq<Code>)
    requires |cl| == |codes|
    ensures |cl'| == |codes'| == |cl|
    ensures forall i :: 0 <= i < |cl| ==>
              if cl[i] == second then codes'[i] == [false] + codes[i] && cl'[i] == Low(smallest, second)
              else if cl[i] == smallest then codes'[i] == [true] + codes[i] && cl'[i] == Low(smallest, second)
              else codes'[i] == codes[i] && cl'[i] == cl[i]
  {
    cl', codes' := cl, codes;
    var newlabel := Low(smallest, second);
    for i := 0 to |cl|
      invariant |cl'| == |codes'| == |cl|
      invariant forall j :: 0 <= j < |cl| ==>
                  if j < i && cl[j] == second then codes'[j] == [false] + codes[j] && cl'[j] == newlabel
                  else if j < i && cl[j] == smallest then codes'[j] == [true] + codes[j] && cl'[j] == newlabel
                  else codes'[j] == codes[j] && cl'[j] == cl[j]
    {
      if cl[i] == second {
        codes' := codes'[i := [false] + codes[i]];
        cl' := cl'[i := newlabel];
      } else if cl[i] == smallest {
        codes' := codes'[i := [true] + codes[i]];
        cl' := cl'[i := newlabel];
      }
    }
  }

  /** Every row replaces the two old labels by the new one, first marking the old entries 0. */
  method RelabelRows(topo: map<nat, map<nat, nat>>, s: nat, t: nat) returns (topo': map<nat, map<nat, nat>>)
    requires forall c, d :: c in topo && d in topo[c] ==> topo[c][d] == 1
    requires s != t
    ensures topo'.Keys == topo.Keys && forall c :: c in topo ==> RowMerged(topo[c], s, t, topo'[c])
  {
    topo' := topo;
    var newlabel, removed := Low(s, t), High(s, t);
    var rest := topo.Keys;
    while rest != {}
      invariant rest <= topo.Keys && topo'.Keys == topo.Keys
      invariant forall c :: c in topo ==> if c in rest then topo'[c] == topo[c] else RowMerged(topo[c], s, t, topo'[c])
    {
      var c :| c in rest;
      var row := topo[c];
      if s in row {
        row := row[s := 0];
        row := row[newlabel := 1];
      }
      if t in row {
        row := row[t := 0];
        row := row[newlabel := 1];
      }
      if removed in row {
        row := row - {removed};
      }
      topo' := topo'[c := row];
      rest := rest - {c};
    }
  }

  /** The quotient after a merge: rows relabelled, the removed cluster's row folded into the
      new one's, which loses its own label. */
  method MergeRows(topo: map<nat, map<nat, nat>>, s: nat, t: nat) returns (topo': map<nat, map<nat, nat>>)
    requires forall c, d :: c in topo && d in topo[c] ==> topo[c][d] == 1
    requires s != t && s in topo && t in topo
    ensures RowsMerged(topo, s, t, topo')
  {
    topo' := RelabelRows(topo, s, t);
    var newlabel, removed := Low(s, t), High(s, t);
    ghost var mine, other := topo'[newlabel], topo'[removed];
    assert RowMerged(topo[newlabel], s, t, mine) && RowMerged(topo[removed], s, t, other);
    var row := topo'[newlabel];
    var rest := topo'[removed].Keys;
    while rest != {}
      invariant rest <= other.Keys
      invariant row.Keys == mine.Keys + (other.Keys - rest)
      invariant forall d :: d in row ==> row[d] == 1
    {
      var d :| d in rest;
      row := row[d := 1];
      rest := rest - {d};
    }
    row := row - {newlabel};
    topo' := topo'[newlabel := row];
    topo' := topo' - {removed};
  }

  // ----- the clustering loop

  /** What every iteration keeps. */
  ghost predicate Clustered(g: Graph, cl: seq<nat>, codes: seq<Code>, topo: map<nat, map<nat, nat>>) {
    Valid(g) && Embedded(g, cl, codes) && Quotient(g, cl, topo) && 0 in Labels(cl)
  }

  /** One iteration: a smallest cluster s is merged with a smallest of its neighbors, t. It
      gives up only at a cluster that has no neighbor, or is a single node with a loop. */
  method Iterate(g: Graph, cl: seq<nat>, codes: seq<Code>, topo: map<nat, map<nat, nat>>)
    returns (ok: bool, cl': seq<nat>, codes': seq<Code>, topo': map<nat, map<nat, nat>>, ghost s: nat, ghost t: int,
             ghost len: nat)
    requires Clustered(g, cl, codes, topo)
    ensures s in topo && forall c :: c in topo ==> |Members(cl, s)| <= |Members(cl, c)|
    ensures ok ==>
              && t in topo[s] && s != t && Merged(cl, codes, s, t, len, cl', codes')
              && (forall c :: c in topo[s] ==> |Members(cl, t)| <= |Members(cl, c)|)
              && Clustered(g, cl', codes', topo') && |topo'| == |topo| - 1
    ensures !ok ==> cl' == cl && codes' == codes && topo' == topo && (s in topo[s] || topo[s] == map[])
  {
    ok, cl', codes', topo', len := false, cl, codes, topo, 0;
    IterationFacts(g, cl, codes, topo);
    var sizes := ClusterSizes(cl);
    var smallest := SmallestCluster(sizes);
    var second := SecondCluster(topo[smallest], sizes);
    s, t := smallest, second;
    var len1, len2 := CodeLengths(cl, codes, smallest, second);
    var len3 := if len1 < len2 then len2 else len1;
    if len1 == -1 || len2 == -1 || second == -1 {
      return;
    }
    len := len3;
    LengthsAgree(g, cl, codes, smallest, second, len1, len2);
    cl', codes' := PadAndMerge(cl, codes, smallest, second, len3);
    topo' := MergeRows(topo, smallest, second);
    MergeKeeps(g, cl, codes, topo, smallest, second, len3, cl', codes', topo');
    ok := true;
  }

  /** Pads the codes of two clusters to one length and merges them. */
  method PadAndMerge(cl: seq<nat>, codes: seq<Code>, s: nat, t: nat, len: nat)
    returns (cl': seq<nat>, codes': seq<Code>)
    requires |cl| == |codes|
    requires forall i :: 0 <= i < |cl| && (cl[i] == s || cl[i] == t) ==> |codes[i]| <= len
    ensures Merged(cl, codes, s, t, len, cl', codes')
  {
    var padded := PadCodes(cl, codes, s, t, len);
    cl', codes' := MergeClusters(cl, padded, s, t);
    PaddedThenMerged(cl, codes, s, t, len, padded, cl', codes');
  }

  lemma PaddedThenMerged(cl: seq<nat>, codes: seq<Code>, s: nat, t: nat, len: nat, padded: seq<Code>, cl': seq<nat>,
                         codes': seq<Code>)
    requires |cl| == |codes| == |padded| == |cl'| == |codes'|
    requires forall i :: 0 <= i < |cl| && (cl[i] == s || cl[i] == t) ==> |codes[i]| <= len
    requires forall i :: 0 <= i < |cl| ==>
               padded[i] == if (cl[i] == t || cl[i] == s) && |codes[i]| <= len then Padded(codes[i], len) else codes[i]
    requires forall i :: 0 <= i < |cl| ==>
               if cl[i] == t then codes'[i] == [false] + padded[i] && cl'[i] == Low(s, t)
               else if cl[i] == s then codes'[i] == [true] + padded[i] && cl'[i] == Low(s, t)
               else codes'[i] == padded[i] && cl'[i] == cl[i]
    ensures Merged(cl, codes, s, t, len, cl', codes')
  {
  }

  lemma IterationFacts(g: Graph, cl: seq<nat>, codes: seq<Code>, topo: map<nat, map<nat, nat>>)
    requires Clustered(g, cl, codes, topo)
    ensures topo.Keys == Labels(cl)
    ensures forall c :: c in topo ==> topo[c].Keys <= Labels(cl)
    ensures forall c, d :: c in topo && d in topo[c] ==> topo[c][d] == 1
    ensures forall c :: c in Labels(cl) ==> |Members(cl, c)| > 0 && exists i :: 0 <= i < |cl| && cl[i] == c
  {
    forall c, d | c in topo && d in topo[c]
      ensures topo[c][d] == 1
    {
      assert Row(g, cl, c, topo[c]);
    }
    forall c | c in Labels(cl)
      ensures |Members(cl, c)| > 0 && topo[c].Keys <= Labels(cl) && exists i :: 0 <= i < |cl| && cl[i] == c
    {
      LabelHasMember(cl, c);
      RowLabels(g, cl, topo, c);
    }
  }

  /** Merges until one cluster is left, none can be merged, or the iteration limit. */
  method Cluster(g: Graph) returns (cl: seq<nat>, codes: seq<Code>, ghost merges: nat)
    requires Valid(g) && |g| > 0
    ensures Embedded(g, cl, codes)
    ensures merges + |Labels(cl)| == |g| && merges <= MAXITER
    ensures Loopless(g) && ConnectedIn(g, All(g)) ==>
              && (Whole(g, cl, codes) <==> |g| <= MAXITER + 1)
              && (|g| <= MAXITER + 1 ==> merges == |g| - 1)
  {
    cl := seq(|g|, i => i);
    codes := seq(|g|, _ => [true]);
    InitiallyEmbedded(g, cl, codes);
    var topo := InitialTopo(g);
    QuotientInitially(g, cl, topo);
    LabelsInitially(cl);
    var nCluster := |topo|;
    var iter := 0;
    merges := 0;
    while iter < MAXITER && nCluster > 1
      invariant Clustered(g, cl, codes, topo)
      invariant nCluster == |topo| == |Labels(cl)| && merges + nCluster == |g| && iter == merges <= MAXITER
      decreases nCluster
    {
      var ok, cl', codes', topo', s, t, len := Iterate(g, cl, codes, topo);
      if !ok {
        StuckMeans(g, cl, topo, s);
        break;
      }
      cl, codes, topo := cl', codes', topo';
      nCluster := |topo|;
      merges, iter := merges + 1, iter + 1;
    }
    OneLabelLeft(g, cl, codes);
  }

  /** Giving up proves that the graph has a loop or is not connected. */
  lemma StuckMeans(g: Graph, cl: seq<nat>, topo: map<nat, map<nat, nat>>, s: nat)
    requires Valid(g) && |cl| == |g| && Quotient(g, cl, topo) && |topo| > 1
    requires s in topo && (s in topo[s] || topo[s] == map[])
    ensures !(Loopless(g) && ConnectedIn(g, All(g)))
  {
    if Loopless(g) && ConnectedIn(g, All(g)) {
      NeverStuck(g, cl, topo);
    }
  }

  lemma LengthsAgree(g: Graph, cl: seq<nat>, codes: seq<Code>, s: nat, t: nat, len1: int, len2: int)
    requires Embedded(g, cl, codes) && s in Labels(cl) && t in Labels(cl)
    requires exists i :: 0 <= i < |cl| && cl[i] == t && len2 == |codes[i]|
    requires exists i :: 0 <= i < |cl| && cl[i] != t && cl[i] == s && len1 == |codes[i]|
    ensures s < |g| && t < |g| && cl[s] == s && cl[t] == t && s != t
    ensures len1 == |codes[s]| && len2 == |codes[t]|
    ensures forall i :: 0 <= i < |cl| ==> (cl[i] == s ==> |codes[i]| == len1) && (cl[i] == t ==> |codes[i]| == len2)
  {
    LabelIsNode(g, cl, codes, s);
    LabelIsNode(g, cl, codes, t);
  }

  function SingleLinks(s: set<nat>): map<nat, nat> {
    map d | d in s :: 1
  }

  method InitialTopo(g: Graph) returns (topo: map<nat, map<nat, nat>>)
    ensures topo.Keys == All(g)
    ensures forall c, d :: c in topo ==> (d in topo[c] <==> d in g[c]) && (d in topo[c] ==> topo[c][d] == 1)
  {
    topo := map[];
    for i := 0 to |g|
      invariant SingleTopo(g, topo, i)
    {
      NextSingle(g, topo, i);
      topo := topo[i := SingleLinks(g[i])];
    }
    SingleRows(g, topo);
    assert topo.Keys == All(g);
  }

  predicate SingleTopo(g: Graph, topo: map<nat, map<nat, nat>>, n: int) {
    && 0 <= n <= |g|
    && topo.Keys == Upto(n)
    && forall c :: c in topo ==> topo[c] == SingleLinks(g[c])
  }

  lemma NextSingle(g: Graph, topo: map<nat, map<nat, nat>>, n: nat)
    requires n < |g| && SingleTopo(g, topo, n)
    ensures SingleTopo(g, topo[n := SingleLinks(g[n])], n + 1)
  {
  }

  lemma SingleRows(g: Graph, topo: map<nat, map<nat, nat>>)
    requires forall c :: c in topo ==> c < |g| && topo[c] == SingleLinks(g[c])
    ensures forall c, d :: c in topo ==> (d in topo[c] <==> d in g[c]) && (d in topo[c] ==> topo[c][d] == 1)
  {
  }

  lemma {:induction false} LabelsInitially(cl: seq<nat>)
    requires forall i :: 0 <= i < |cl| ==> cl[i] == i
    ensures Labels(cl) == Upto(|cl|)
    ensures |Labels(cl)| == |cl|
  {
    if |cl| > 0 {
      var n := |cl| - 1;
      LabelsInitially(cl[..n]);
      MembersGrow(cl, n);
      assert cl[..n + 1] == cl;
      assert n !in Labels(cl[..n]);
      assert Labels(cl) == Labels(cl[..n]) + {n};
    }
  }

  lemma QuotientInitially(g: Graph, cl: seq<nat>, topo: map<nat, map<nat, nat>>)
    requires Valid(g) && |cl| == |g| && forall i :: 0 <= i < |g| ==> cl[i] == i
    requires topo.Keys == All(g)
    requires forall c, d :: c in topo ==> (d in topo[c] <==> d in g[c]) && (d in topo[c] ==> topo[c][d] == 1)
    ensures Quotient(g, cl, topo)
    ensures |topo| == |g|
  {
    LabelsInitially(cl);
    assert topo.Keys == Labels(cl);
    forall c | c in topo
      ensures Row(g, cl, c, topo[c])
    {
      assert Members(cl, c) == {c};
      forall d: nat
        ensures d in g[c] <==> Joined(g, cl, c, d)
      {
        if d in g[c] {
          assert cl[c] == c && cl[d] == d;
        }
      }
    }
  }

  lemma LabelHasMember(cl: seq<nat>, c: nat)
    requires c in Labels(cl)
    ensures |Members(cl, c)| > 0 && exists i :: 0 <= i < |cl| && cl[i] == c
  {
    var i: nat :| i < |cl| && cl[i] == c;
    assert i in Members(cl, c);
  }

  lemma RowLabels(g: Graph, cl: seq<nat>, topo: map<nat, map<nat, nat>>, c: nat)
    requires |cl| == |g| && Quotient(g, cl, topo) && c in topo
    ensures topo[c].Keys <= Labels(cl)
  {
    forall d | d in topo[c]
      ensures d in Labels(cl)
    {
      assert Joined(g, cl, c, d);
    }
  }

  /** In a connected graph without loops no iteration gives up while two clusters are left. */
  lemma NeverStuck(g: Graph, cl: seq<nat>, topo: map<nat, map<nat, nat>>)
    requires Valid(g) && Loopless(g) && ConnectedIn(g, All(g)) && |cl| == |g| && Quotient(g, cl, topo) && |topo| > 1
    ensures forall c :: c in topo ==> c !in topo[c] && topo[c] != map[]
  {
    forall c | c in topo
      ensures c !in topo[c] && topo[c] != map[]
    {
      var other := AnotherKey(topo.Keys, c);
      ClusterHasNeighbor(g, cl, c, other);
      var e :| e != c && e in Labels(cl) && Joined(g, cl, c, e);
      assert e in topo[c];
      if c in topo[c] {
        LooplessRow(g, cl, c);
      }
    }
  }

  lemma AnotherKey(keys: set<nat>, c: nat) returns (d: nat)
    requires c in keys && |keys| > 1
    ensures d in keys && d != c
  {
    var rest := keys - {c};
    assert |rest| == |keys| - 1;
    d :| d in rest;
  }

  lemma LooplessRow(g: Graph, cl: seq<nat>, c: nat)
    requires Loopless(g) && |cl| == |g|
    ensures !(Joined(g, cl, c, c) && Members(cl, c) == {c})
  {
    if u, v :| 0 <= u < |g| && 0 <= v < |g| && v in g[u] && cl[u] == c && cl[v] == c {
      assert u in Members(cl, c) && v in Members(cl, c) && u != v;
    }
  }

  lemma EdgeBetween(g: Graph, cl: seq<nat>, topo: map<nat, map<nat, nat>>, s: nat, t: nat) returns (u: nat, v: nat)
    requires |cl| == |g| && Quotient(g, cl, topo) && s in topo && t in topo[s]
    ensures u < |g| && v < |g| && v in g[u] && cl[u] == s && cl[v] == t
  {
    assert Row(g, cl, s, topo[s]) && Joined(g, cl, s, t);
    u, v :| u < |g| && v < |g| && v in g[u] && cl[u] == s && cl[v] == t;
  }

  lemma MergeKeeps(g: Graph, cl: seq<nat>, codes: seq<Code>, topo: map<nat, map<nat, nat>>, s: nat, t: nat, len: nat,
                   cl': seq<nat>, codes': seq<Code>, topo': map<nat, map<nat, nat>>)
    requires Clustered(g, cl, codes, topo) && t in (if s in topo then topo[s] else map[])
    requires s < |g| && t < |g| && cl[s] == s && cl[t] == t && (len == |codes[s]| || len == |codes[t]|)
    requires Merged(cl, codes, s, t, len, cl', codes') && RowsMerged(topo, s, t, topo')
    ensures Clustered(g, cl', codes', topo')
    ensures |topo'| == |topo| - 1
  {
    var u, v := EdgeBetween(g, cl, topo, s, t);
    MergeEmbedded(g, cl, codes, s, t, len, cl', codes', u, v);
    QuotientMerged(g, cl, topo, s, t, cl', topo');
    assert |topo'.Keys| == |topo.Keys| - 1;
  }

  lemma LabelIsNode(g: Graph, cl: seq<nat>, codes: seq<Code>, c: nat)
    requires Embedded(g, cl, codes) && c in Labels(cl)
    ensures c < |g| && cl[c] == c
  {
    var i: nat :| i < |cl| && cl[i] == c;
  }

  lemma OneLabelLeft(g: Graph, cl: seq<nat>, codes: seq<Code>)
    requires Embedded(g, cl, codes) && |g| > 0
    ensures Whole(g, cl, codes) <==> |Labels(cl)| == 1
    ensures |Labels(cl)| >= 1
  {
    assert cl[0] in Labels(cl);
    assert |Labels(cl)| == |Labels(cl) - {cl[0]}| + 1;
    if |Labels(cl)| == 1 {
      assert Labels(cl) - {cl[0]} == {};
      forall i | 0 <= i < |g|
        ensures cl[i] == cl[0]
      {
        assert cl[i] in Labels(cl);
      }
    } else {
      var other :| other in Labels(cl) - {cl[0]};
    }
  }
}
