/** Undirected graphs on nodes 0..n-1, paths and connectedness. */
module Graph {
  /** adj[u] is the set of u's neighbors. */
  type Graph = seq<set<nat>>

  /** Symmetric, without dangling neighbors. */
  ghost predicate Valid(g: Graph) {
    forall u, v {:trigger v in g[u]} :: 0 <= u < |g| && v in g[u] ==> v < |g| && u in g[v]
  }

  ghost predicate Loopless(g: Graph) {
    forall u :: 0 <= u < |g| ==> u !in g[u]
  }

  ghost predicate Path(g: Graph, within: set<nat>, p: seq<nat>, a: nat, b: nat) {
    && p != [] && p[0] == a && p[|p| - 1] == b
    && (forall i :: 0 <= i < |p| ==> p[i] in within && p[i] < |g|)
    && (forall i :: 0 <= i < |p| - 1 ==> p[i + 1] in g[p[i]])
  }

  ghost predicate Linked(g: Graph, within: set<nat>, a: nat, b: nat) {
    exists p :: Path(g, within, p, a, b)
  }

  /** Any two nodes of the set are joined by a path inside it. */
  ghost predicate ConnectedIn(g: Graph, within: set<nat>) {
    forall a, b {:trigger Linked(g, within, a, b)} :: a in within && b in within ==> Linked(g, within, a, b)
  }

  function Upto(n: nat): (all: set<nat>)
    ensures forall i: nat :: i in all <==> i < n
    ensures |all| == n
  {
    if n == 0 then {} else Upto(n - 1) + {n - 1}
  }

  ghost function All(g: Graph): set<nat> {
    Upto(|g|)
  }

  lemma {:induction false} Crossing(g: Graph, within: set<nat>, p: seq<nat>, a: nat, b: nat, side: set<nat>)
    returns (u: nat, v: nat)
    requires Path(g, within, p, a, b) && a in side && b !in side
    ensures u in side && v !in side && u < |g| && v < |g| && v in g[u] && u in within && v in within
    decreases |p|
  {
    if p[1] in side {
      u, v := Crossing(g, within, p[1..], p[1], b, side);
    } else {
      u, v := p[0], p[1];
    }
  }

  lemma Append(g: Graph, within: set<nat>, a: nat, b: nat, c: nat)
    requires Linked(g, within, a, b) && Linked(g, within, b, c)
    ensures Linked(g, within, a, c)
  {
    var p :| Path(g, within, p, a, b);
    var q :| Path(g, within, q, b, c);
    var r := p + q[1..];
    assert forall i :: 0 <= i < |r| - 1 ==> r[i] == if i < |p| then p[i] else q[i - |p| + 1];
    assert Path(g, within, r, a, c);
  }

  lemma Widen(g: Graph, within: set<nat>, wider: set<nat>, a: nat, b: nat)
    requires Linked(g, within, a, b) && within <= wider
    ensures Linked(g, wider, a, b)
  {
    var p :| Path(g, within, p, a, b);
    assert Path(g, wider, p, a, b);
  }

  lemma EdgeLinks(g: Graph, within: set<nat>, u: nat, v: nat)
    requires u in within && v in within && u < |g| && v < |g| && v in g[u]
    ensures Linked(g, within, u, v)
  {
    assert Path(g, within, [u, v], u, v);
  }

  /** Two connected sets joined by an edge are connected together. */
  lemma JoinConnected(g: Graph, s: set<nat>, t: set<nat>, u: nat, v: nat)
    requires Valid(g) && ConnectedIn(g, s) && ConnectedIn(g, t)
    requires u in s && v in t && u < |g| && v < |g| && v in g[u]
    ensures ConnectedIn(g, s + t)
  {
    var all := s + t;
    EdgeLinks(g, all, u, v);
    EdgeLinks(g, all, v, u);
    forall a | a in all
      ensures Linked(g, all, a, u) && Linked(g, all, u, a)
    {
      if a in s {
        Widen(g, s, all, a, u);
        Widen(g, s, all, u, a);
      } else {
        Widen(g, t, all, a, v);
        Widen(g, t, all, v, a);
        Append(g, all, a, v, u);
        Append(g, all, u, v, a);
      }
    }
    forall a, b | a in all && b in all
      ensures Linked(g, all, a, b)
    {
      Append(g, all, a, u, b);
    }
  }

  lemma SingletonConnected(g: Graph, u: nat)
    requires u < |g|
    ensures ConnectedIn(g, {u})
  {
    assert Path(g, {u}, [u], u, u);
  }
}
