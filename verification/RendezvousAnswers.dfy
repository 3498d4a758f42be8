/** Which answers a rendezvous node may give: there is always one, and with 256 qualifying edges
    it is the empty one. */
module RendezvousAnswers {
  import opened Arith
  import opened VidBits
  import opened RendezvousTable

  lemma {:induction false} NearestEdge(q: set<Edge>, s: Vid) returns (e: Edge)
    requires q != {}
    ensures e in q && forall f :: f in q ==> SwitchXor(e.src, s) <= SwitchXor(f.src, s)
    decreases q
  {
    var f :| f in q;
    if q == {f} {
      e := f;
    } else {
      assert q - {f} != {};
      e := NearestEdge(q - {f}, s);
      if SwitchXor(f.src, s) < SwitchXor(e.src, s) {
        e := f;
      }
    }
  }

  lemma {:induction false} Listed(edges: set<Edge>) returns (order: seq<Edge>)
    ensures Lists(order, edges)
    decreases edges
  {
    if edges == {} {
      order := [];
    } else {
      var e :| e in edges;
      order := Listed(edges - {e});
      order := order + [e];
    }
  }

  /** Whatever edges are known, some answer may be given; it has to be empty exactly if the number
      of qualifying edges is a multiple of 256. */
  lemma AnsweredExactly(edges: set<Edge>, k: nat, s: Vid) returns (gws: seq<Vid>)
    ensures Selection(edges, k, s, gws)
    ensures |Qualifying(edges, k, s)| % 256 == 0 <==> forall other :: Selection(edges, k, s, other) ==> other == []
  {
    var n := |Qualifying(edges, k, s)| % 256;
    if n == 0 {
      gws := [];
      NothingTaken(edges, k, s);
    } else {
      var e := NearestEdge(Qualifying(edges, k, s), s);
      assert forall f :: f in edges && Qualifies(f, k, s) ==> f in Qualifying(edges, k, s);
      var order := Listed(edges);
      gws := Copied(order, Most(edges, k, s), e.src, k, s);
      CopiedIsSelection(edges, order, k, s, gws, e);
    }
  }

  // ----- 256 edges

  /** All bit strings of length n. */
  ghost function Strings(n: nat): set<seq<bool>> {
    if n == 0 then {[]} else Extended(Strings(n - 1), false) + Extended(Strings(n - 1), true)
  }

  ghost function Extended(all: set<seq<bool>>, b: bool): set<seq<bool>> {
    set t <- all :: t + [b]
  }

  lemma {:induction false} ExtendedCount(all: set<seq<bool>>, b: bool)
    ensures |Extended(all, b)| == |all|
    decreases all
  {
    if all != {} {
      var t :| t in all;
      var rest := Extended(all - {t}, b);
      ExtendedCount(all - {t}, b);
      forall u | u in all - {t}
        ensures u + [b] != t + [b]
      {
        assert (u + [b])[..|u|] == u && (t + [b])[..|t|] == t;
      }
      assert t + [b] !in rest;
      assert Extended(all, b) == rest + {t + [b]};
    }
  }

  lemma {:induction false} StringsLength(n: nat)
    ensures forall t :: t in Strings(n) ==> |t| == n
  {
    if n > 0 {
      StringsLength(n - 1);
    }
  }

  lemma {:induction false} StringsCount(n: nat)
    ensures |Strings(n)| == Pow2(n)
  {
    if n > 0 {
      StringsCount(n - 1);
      var all := Strings(n - 1);
      ExtendedCount(all, false);
      ExtendedCount(all, true);
      ExtendedApart(all);
    }
  }

  lemma ExtendedApart(all: set<seq<bool>>)
    ensures |Extended(all, false) + Extended(all, true)| == |Extended(all, false)| + |Extended(all, true)|
  {
    forall t | t in Extended(all, false)
      ensures t !in Extended(all, true)
    {
      assert !t[|t| - 1];
    }
    assert Extended(all, false) !! Extended(all, true);
  }

  lemma {:induction false} StringsAll(t: seq<bool>)
    ensures t in Strings(|t|)
  {
    if t != [] {
      var n := |t| - 1;
      StringsAll(t[..n]);
      assert t == t[..n] + [t[n]];
      assert t in Extended(Strings(n), t[n]);
    }
  }

  /** A switch id that starts like s up to level k, has s's bit or the other one there, goes on with
      t, and ends in zeros. */
  ghost function Node(s: Vid, k: nat, far: bool, t: seq<bool>): (v: Vid)
    requires 17 + |t| <= k <= VID_BITS
    ensures IsSwitch(v) && (if far then Delta(s, v) == k else Delta(s, v) < k)
  {
    var v: Vid := s[..48 - k] + [far != s[48 - k]] + t + Zeros(k - 1 - |t|);
    NodeIs(s, k, far, t, v);
    v
  }

  lemma NodeIs(s: Vid, k: nat, far: bool, t: seq<bool>, v: Vid)
    requires 17 + |t| <= k <= VID_BITS && v == s[..48 - k] + [far != s[48 - k]] + t + Zeros(k - 1 - |t|)
    ensures IsSwitch(v) && (if far then Delta(s, v) == k else Delta(s, v) < k)
    ensures v[49 - k..49 - k + |t|] == t
  {
    SharePrefix(s, v, k);
    DeltaPrefix(s, v, k - 1);
    if far {
      assert s[..48 - (k - 1)][48 - k] != v[..48 - (k - 1)][48 - k];
    } else {
      assert s[..48 - (k - 1)] == v[..48 - (k - 1)];
    }
    assert v[32..] == Zeros(16);
    assert v == v[..32] + v[32..];
  }

  lemma NodeTail(s: Vid, k: nat, far: bool, pre: seq<bool>, t: seq<bool>, u: seq<bool>)
    requires 17 + |pre| + |t| <= k <= VID_BITS && |u| == |t|
    requires Node(s, k, far, pre + t) == Node(s, k, far, pre + u)
    ensures t == u
  {
    NodeIs(s, k, far, pre + t, Node(s, k, far, pre + t));
    NodeIs(s, k, far, pre + u, Node(s, k, far, pre + u));
    assert (pre + t)[|pre|..] == t && (pre + u)[|pre|..] == u;
  }

  /** From one of sixteen near ids to one of sixteen far ids, by the halves of t. */
  ghost function GridEdge(s: Vid, k: nat, pre: seq<bool>, t: seq<bool>): (e: Edge)
    requires 21 + |pre| <= k <= VID_BITS && |t| == 8
    ensures Qualifies(e, k, s) && IsSwitch(e.src) && IsSwitch(e.dest)
  {
    Edge(Node(s, k, false, pre + t[..4]), Node(s, k, true, pre + t[4..]))
  }

  lemma GridEdgeOnce(s: Vid, k: nat, pre: seq<bool>, t: seq<bool>, u: seq<bool>)
    requires 21 + |pre| <= k <= VID_BITS && |t| == |u| == 8 && GridEdge(s, k, pre, t) == GridEdge(s, k, pre, u)
    ensures t == u
  {
    NodeTail(s, k, false, pre, t[..4], u[..4]);
    NodeTail(s, k, true, pre, t[4..], u[4..]);
    assert t == t[..4] + t[4..] && u == u[..4] + u[4..];
  }

  ghost function GridEdges(s: Vid, k: nat, pre: seq<bool>, all: set<seq<bool>>): (edges: set<Edge>)
    requires 21 + |pre| <= k <= VID_BITS && forall t :: t in all ==> |t| == 8
    ensures forall e :: e in edges ==> Qualifies(e, k, s) && IsSwitch(e.src) && IsSwitch(e.dest)
  {
    set t <- all :: GridEdge(s, k, pre, t)
  }

  lemma {:induction false} ImageCount<A, B>(all: set<A>, f: A -> B, image: set<B>)
    requires forall a, b :: a in all && b in all && f(a) == f(b) ==> a == b
    requires image == set a <- all :: f(a)
    ensures |image| == |all|
    decreases all
  {
    if all != {} {
      var a :| a in all;
      ImageCount(all - {a}, f, image - {f(a)});
    }
  }

  lemma GridCount(s: Vid, k: nat, pre: seq<bool>, all: set<seq<bool>>)
    requires 21 + |pre| <= k <= VID_BITS && forall t :: t in all ==> |t| == 8
    ensures |GridEdges(s, k, pre, all)| == |all|
  {
    var f := (t: seq<bool>) => if |t| == 8 then GridEdge(s, k, pre, t) else Edge(s, s);
    forall t, u | t in all && u in all && f(t) == f(u)
      ensures t == u
    {
      GridEdgeOnce(s, k, pre, t, u);
    }
    ImageCount(all, f, GridEdges(s, k, pre, all));
  }

  lemma NodeHead(s: Vid, k: nat, far: bool, t: seq<bool>)
    requires 17 + |t| <= k <= VID_BITS && t != []
    ensures Node(s, k, far, t)[49 - k] == t[0]
  {
    var v := Node(s, k, far, t);
    NodeIs(s, k, far, t, v);
    assert v[49 - k] == v[49 - k..49 - k + |t|][0];
  }

  lemma GridSources(s: Vid, k: nat, pre: seq<bool>, e: Edge)
    requires 21 + |pre| <= k <= VID_BITS && pre != [] && e in Grid(s, k, pre)
    ensures e.src[49 - k] == pre[0]
  {
    StringsLength(8);
    var t :| t in Strings(8) && e == GridEdge(s, k, pre, t);
    NodeHead(s, k, false, pre + t[..4]);
  }

  /** Sixteen near ids, each with edges to the same sixteen far ids. */
  ghost function Grid(s: Vid, k: nat, pre: seq<bool>): (edges: set<Edge>)
    requires 21 + |pre| <= k <= VID_BITS
    ensures |edges| == 256
    ensures forall e :: e in edges ==> Qualifies(e, k, s) && IsSwitch(e.src) && IsSwitch(e.dest)
  {
    StringsLength(8);
    StringsCount(8);
    Pow2Byte(0);
    GridCount(s, k, pre, Strings(8));
    GridEdges(s, k, pre, Strings(8))
  }

  /** The count reads zero: at every level from 21 on there are 256 edges between switch ids that lead
      out of the asker's subtree, and no answer but the empty one. */
  lemma CountReadsZero(s: Vid, k: nat) returns (edges: set<Edge>)
    requires 21 <= k <= VID_BITS
    ensures |edges| == 256
    ensures forall e :: e in edges ==> Qualifies(e, k, s) && IsSwitch(e.src) && IsSwitch(e.dest)
    ensures forall gws :: Selection(edges, k, s, gws) ==> gws == []
  {
    edges := Grid(s, k, []);
    assert Qualifying(edges, k, s) == edges;
  }

  // ----- and not below

  /** The bits by which the switch ids nearer than k to s differ. */
  ghost function Tails(near: set<Vid>, k: nat): set<seq<bool>>
    requires 17 <= k <= VID_BITS
  {
    set v <- near :: v[49 - k..32]
  }

  lemma TailTells(s: Vid, k: nat, v: Vid, w: Vid)
    requires 17 <= k <= VID_BITS && IsSwitch(v) && IsSwitch(w) && Delta(s, v) < k && Delta(s, w) < k
    requires v[49 - k..32] == w[49 - k..32]
    ensures v == w
  {
    DeltaPrefix(s, v, k - 1);
    DeltaPrefix(s, w, k - 1);
    assert v[..32] == v[..49 - k] + v[49 - k..32] && w[..32] == w[..49 - k] + w[49 - k..32];
    assert SwitchVid(v) == SwitchVid(w);
  }

  lemma TailsCount(s: Vid, k: nat, near: set<Vid>)
    requires 17 <= k <= VID_BITS && forall v :: v in near ==> IsSwitch(v) && Delta(s, v) < k
    ensures |Tails(near, k)| == |near|
  {
    var f := (v: Vid) => v[49 - k..32];
    forall v, w | v in near && w in near && f(v) == f(w)
      ensures v == w
    {
      TailTells(s, k, v, w);
    }
    ImageCount(near, f, Tails(near, k));
  }

  lemma Smaller<T>(a: set<T>, b: set<T>)
    requires a <= b
    ensures |a| <= |b|
  {
    assert b == a + (b - a);
  }

  /** At most 2^(k-17) switch ids are nearer than k to an id. */
  lemma NearBound(s: Vid, k: nat, near: set<Vid>)
    requires 17 <= k <= VID_BITS && forall v :: v in near ==> IsSwitch(v) && Delta(s, v) < k
    ensures |near| <= Pow2(k - 17)
  {
    TailsCount(s, k, near);
    StringsCount(k - 17);
    forall t | t in Tails(near, k)
      ensures t in Strings(k - 17)
    {
      StringsAll(t);
    }
    Smaller(Tails(near, k), Strings(k - 17));
  }

  lemma FlipFar(s: Vid, k: nat)
    requires 1 <= k <= VID_BITS
    ensures Delta(s, FlipBit(s, k)) == k
  {
    var f: Vid := FlipBit(s, k);
    SharePrefix(s, f, k);
    DeltaPrefix(s, f, k - 1);
    assert s[..48 - (k - 1)][48 - k] != f[..48 - (k - 1)][48 - k];
  }

  /** As many are at distance k. */
  lemma FarBound(s: Vid, k: nat, far: set<Vid>)
    requires 17 <= k <= VID_BITS && forall v :: v in far ==> IsSwitch(v) && Delta(s, v) == k
    ensures |far| <= Pow2(k - 17)
  {
    var f: Vid := FlipBit(s, k);
    FlipFar(s, k);
    DeltaSym(s, f);
    forall v | v in far
      ensures Delta(f, v) < k
    {
      DeltaUltra(f, s, v);
    }
    NearBound(f, k, far);
  }

  lemma {:induction false} PairsBound(pairs: set<Edge>, near: set<Vid>, far: set<Vid>)
    requires forall e :: e in pairs ==> e.src in near && e.dest in far
    ensures |pairs| <= |near| * |far|
    decreases near
  {
    if near == {} {
      assert pairs == {};
    } else {
      var a :| a in near;
      var from := set e <- pairs | e.src == a;
      FromBound(from, a, far);
      PairsBound(pairs - from, near - {a}, far);
      assert pairs == from + (pairs - from);
      OneMore(|near| - 1, |far|);
    }
  }

  lemma OneMore(a: nat, b: nat)
    ensures (a + 1) * b == a * b + b
  {
  }

  lemma {:induction false} FromBound(pairs: set<Edge>, a: Vid, far: set<Vid>)
    requires forall e :: e in pairs ==> e.src == a && e.dest in far
    ensures |pairs| <= |far|
    decreases pairs
  {
    if pairs != {} {
      var e :| e in pairs;
      forall f | f in pairs - {e}
        ensures f.dest != e.dest
      {
        assert f == Edge(a, f.dest) && e == Edge(a, e.dest);
      }
      FromBound(pairs - {e}, a, far - {e.dest});
    }
  }

  lemma ProductBound(a: nat, b: nat, c: nat, d: nat)
    requires a <= c && b <= d
    ensures a * b <= c * d
  {
    MulNonNeg(c - a, b);
    MulNonNeg(c, d - b);
    assert c * d == a * b + (c - a) * b + c * (d - b);
  }

  lemma SmallPowers(k: nat, n: nat)
    requires k <= n <= 4
    ensures Pow2(k) <= Pow2(n) && Pow2(3) == 8 && Pow2(4) == 16
  {
    Pow2Mono(k, n);
  }

  lemma NoneBelow(edges: set<Edge>, k: nat, s: Vid)
    requires k < 17 && IsSwitch(s) && forall e :: e in edges ==> IsSwitch(e.src) && IsSwitch(e.dest)
    ensures Qualifying(edges, k, s) == {}
  {
    forall e | e in edges
      ensures !Qualifies(e, k, s)
    {
      SwitchDeltaZero(s, e.dest);
      DeltaZero(s, e.dest);
    }
  }

  lemma FewBetween(q: set<Edge>, k: nat, s: Vid)
    requires 17 <= k <= 20 && forall e :: e in q ==> Leads(e, k, s)
    ensures |q| <= 64
  {
    EndsBound(q, k, s, k - 17);
    PairsFit(q, Sources(q), Targets(q), k - 17);
  }

  /** A qualifying edge between switch ids. */
  predicate Leads(e: Edge, k: nat, s: Vid) {
    Qualifies(e, k, s) && IsSwitch(e.src) && IsSwitch(e.dest)
  }

  lemma EndsBound(q: set<Edge>, k: nat, s: Vid, n: nat)
    requires 17 <= k <= VID_BITS && n == k - 17 && forall e :: e in q ==> Leads(e, k, s)
    ensures |Sources(q)| <= Pow2(n) && |Targets(q)| <= Pow2(n)
  {
    NearBound(s, k, Sources(q));
    FarBound(s, k, Targets(q));
  }

  ghost function Sources(q: set<Edge>): set<Vid> {
    set e <- q :: e.src
  }

  ghost function Targets(q: set<Edge>): set<Vid> {
    set e <- q :: e.dest
  }

  lemma SixtyFour(n: nat, a: nat, b: nat, c: nat)
    requires n <= 3 && a <= Pow2(n) && b <= Pow2(n) && c <= a * b
    ensures c <= 64
  {
    SmallPowers(n, 3);
    ProductBound(a, b, 8, 8);
  }

  lemma PairsFit(q: set<Edge>, near: set<Vid>, far: set<Vid>, n: nat)
    requires forall e :: e in q ==> e.src in near && e.dest in far
    requires n <= 3 && |near| <= Pow2(n) && |far| <= Pow2(n)
    ensures |q| <= 64
  {
    PairsBound(q, near, far);
    SixtyFour(n, |near|, |far|, |q|);
  }

  /** Among switch ids the count never reaches 256 at levels up to 20: every query is answered if
      and only if some edge qualifies. */
  lemma LowLevelsCount(edges: set<Edge>, k: nat, s: Vid, gws: seq<Vid>)
    requires k <= 20 && IsSwitch(s) && forall e :: e in edges ==> IsSwitch(e.src) && IsSwitch(e.dest)
    requires Selection(edges, k, s, gws)
    ensures |Qualifying(edges, k, s)| <= 64
    ensures gws == [] <==> forall e :: e in edges ==> !Qualifies(e, k, s)
  {
    if k < 17 {
      NoneBelow(edges, k, s);
    } else {
      FewBetween(Qualifying(edges, k, s), k, s);
    }
    EmptyMeans(edges, k, s, gws);
  }
}
