/** Virtual ids as bit strings, most significant bit first: the vocabulary of the
    simulator (sim-py/veil.py), against which the byte-level code is proved. */
module VidBits {

  const VID_BITS := 48
  const HOST_BITS := 16

  /** A virtual id. Switch ids end in HOST_BITS zeros. */
  type Vid = v: seq<bool> | |v| == 48 witness seq(48, _ => false)

  function Pow2(n: nat): (p: nat)
    ensures p > 0
  {
    if n == 0 then 1 else 2 * Pow2(n - 1)
  }

  function Zeros(n: nat): (z: seq<bool>)
    ensures |z| == n && forall i :: 0 <= i < n ==> !z[i]
  {
    seq(n, _ => false)
  }

  /** Number of bits below the longest common prefix. */
  function Delta(a: seq<bool>, b: seq<bool>): (d: nat)
    requires |a| == |b|
    ensures d <= |a|
  {
    if |a| == 0 then 0
    else if a[0] == b[0] then Delta(a[1..], b[1..])
    else |a|
  }

  /** Flips the k-th bit from the right, counting from 1. */
  function FlipBit(a: seq<bool>, k: nat): (r: seq<bool>)
    requires 1 <= k <= |a|
    ensures |r| == |a|
  {
    a[|a| - k := !a[|a| - k]]
  }

  /** The level-k rendezvous point: the top |a|-k+1 bits, then zeros. */
  function RdvPoint(a: seq<bool>, k: nat): (r: seq<bool>)
    requires 1 <= k <= |a| + 1
    ensures |r| == |a|
  {
    a[..|a| - k + 1] + Zeros(k - 1)
  }

  /** The number whose binary digits are the bitwise exclusive-or of a and b. */
  function Xor(a: seq<bool>, b: seq<bool>): nat
    requires |a| == |b|
  {
    if |a| == 0 then 0
    else (if a[0] != b[0] then Pow2(|a| - 1) else 0) + Xor(a[1..], b[1..])
  }

  /** The switch part of a virtual id. */
  function SwitchVid(v: Vid): Vid {
    v[..32] + Zeros(16)
  }

  predicate IsSwitch(v: Vid) {
    SwitchVid(v) == v
  }

  /** Exclusive-or over the switch bits only. */
  function SwitchXor(a: Vid, b: Vid): nat {
    Xor(a[..32], b[..32])
  }

  /** The simulator's counting loop computes Delta. */
  method DeltaLoop(vid1: seq<bool>, vid2: seq<bool>) returns (dist: nat)
    requires |vid1| == |vid2|
    ensures dist == Delta(vid1, vid2)
  {
    dist := |vid1|;
    for i := 0 to |vid1|
      invariant dist == |vid1| - i
      invariant Delta(vid1, vid2) == Delta(vid1[i..], vid2[i..])
    {
      if vid1[i] == vid2[i] {
        assert vid1[i..][1..] == vid1[i + 1..] && vid2[i..][1..] == vid2[i + 1..];
        dist := dist - 1;
      } else {
        return dist;
      }
    }
  }

  // ----- distance is an ultrametric with binary branching

  /** Being within distance k is agreeing on all but the last k bits. */
  lemma {:induction false} DeltaPrefix(a: seq<bool>, b: seq<bool>, k: nat)
    requires |a| == |b| && k <= |a|
    ensures Delta(a, b) <= k <==> a[..|a| - k] == b[..|a| - k]
  {
    if k < |a| {
      var n := |a| - k;
      assert a[..n] == [a[0]] + a[1..][..n - 1];
      assert b[..n] == [b[0]] + b[1..][..n - 1];
      if a[0] == b[0] {
        DeltaPrefix(a[1..], b[1..], k);
      } else {
        assert a[..n][0] != b[..n][0];
      }
    }
  }

  /** At the distance itself the bits differ, and only there does the prefix end. */
  lemma {:induction false} DeltaBit(a: seq<bool>, b: seq<bool>)
    requires |a| == |b| && Delta(a, b) > 0
    ensures a[|a| - Delta(a, b)] != b[|a| - Delta(a, b)]
  {
    if a[0] == b[0] {
      DeltaBit(a[1..], b[1..]);
    }
  }

  lemma DeltaZero(a: seq<bool>, b: seq<bool>)
    requires |a| == |b|
    ensures Delta(a, b) == 0 <==> a == b
  {
    DeltaPrefix(a, b, 0);
    assert a[..|a|] == a && b[..|b|] == b;
  }

  lemma {:induction false} DeltaSym(a: seq<bool>, b: seq<bool>)
    requires |a| == |b|
    ensures Delta(a, b) == Delta(b, a)
  {
    if |a| > 0 && a[0] == b[0] {
      DeltaSym(a[1..], b[1..]);
    }
  }

  lemma {:induction false} DeltaUltra(a: seq<bool>, b: seq<bool>, c: seq<bool>)
    requires |a| == |b| == |c|
    ensures Delta(a, c) <= Delta(a, b) || Delta(a, c) <= Delta(b, c)
    ensures Delta(a, b) < Delta(b, c) ==> Delta(a, c) == Delta(b, c)
    ensures Delta(b, c) < Delta(a, b) ==> Delta(a, c) == Delta(a, b)
    ensures Delta(a, b) == Delta(b, c) && Delta(a, b) > 0 ==> Delta(a, c) < Delta(a, b)
  {
    if |a| > 0 {
      if a[0] == b[0] == c[0] {
        DeltaUltra(a[1..], b[1..], c[1..]);
      } else if a[0] == c[0] {
        assert Delta(a, c) <= |a| - 1;
      } else if a[0] == b[0] {
        assert Delta(a, b) <= |a| - 1;
      } else {
        assert Delta(b, c) <= |a| - 1;
      }
    }
  }

  // ----- flipping a bit

  lemma {:induction false} FlipDelta(x: seq<bool>, d: seq<bool>)
    requires |x| == |d| && Delta(x, d) > 0
    ensures Delta(x, FlipBit(d, Delta(x, d))) < Delta(x, d)
    ensures Delta(d, FlipBit(d, Delta(x, d))) == Delta(x, d)
  {
    var f := FlipBit(d, Delta(x, d));
    if x[0] == d[0] {
      assert f[1..] == FlipBit(d[1..], Delta(x, d));
      FlipDelta(x[1..], d[1..]);
    }
  }

  lemma FlipTwice(d: seq<bool>, k: nat)
    requires 1 <= k <= |d|
    ensures FlipBit(FlipBit(d, k), k) == d
  {
  }

  // ----- rendezvous points

  /** Two ids share their level-k rendezvous point exactly when they are nearer than k. */
  lemma RdvPointShared(a: seq<bool>, b: seq<bool>, k: nat)
    requires |a| == |b| && 1 <= k <= |a| + 1
    ensures RdvPoint(a, k) == RdvPoint(b, k) <==> Delta(a, b) < k
  {
    DeltaPrefix(a, b, k - 1);
    var n := |a| - k + 1;
    assert RdvPoint(a, k)[..n] == a[..n] && RdvPoint(b, k)[..n] == b[..n];
  }

  lemma RdvPointNear(a: seq<bool>, k: nat)
    requires 1 <= k <= |a| + 1
    ensures Delta(a, RdvPoint(a, k)) < k
  {
    SharePrefix(a, RdvPoint(a, k), k - 1);
  }

  lemma SharePrefix(a: seq<bool>, b: seq<bool>, n: nat)
    requires |a| == |b| && n <= |a| && forall i :: 0 <= i < |a| - n ==> a[i] == b[i]
    ensures Delta(a, b) <= n
  {
    DeltaPrefix(a, b, n);
    assert a[..|a| - n] == b[..|a| - n];
  }

  // ----- the exclusive-or order

  /** The exclusive-or has exactly Delta significant bits. */
  lemma {:induction false} XorBounds(a: seq<bool>, b: seq<bool>)
    requires |a| == |b|
    ensures Xor(a, b) < Pow2(Delta(a, b))
    ensures Delta(a, b) > 0 ==> Pow2(Delta(a, b) - 1) <= Xor(a, b)
  {
    if |a| > 0 {
      XorBounds(a[1..], b[1..]);
      if a[0] != b[0] {
        Pow2Mono(Delta(a[1..], b[1..]), |a| - 1);
      }
    }
  }

  lemma {:induction false} Pow2Mono(i: nat, j: nat)
    requires i <= j
    ensures Pow2(i) <= Pow2(j)
    decreases j
  {
    if i < j {
      Pow2Mono(i, j - 1);
    }
  }

  lemma Pow2Word(n: nat)
    requires n == 32
    ensures Pow2(n) == 0x1_0000_0000
  {
    Pow2Byte(n - 8);
    Pow2Byte(n - 16);
    Pow2Byte(n - 24);
    Pow2Byte(n - 32);
  }

  lemma Pow2Byte(n: nat)
    ensures Pow2(n + 8) == 0x100 * Pow2(n)
  {
    assert Pow2(n + 2) == 4 * Pow2(n);
    assert Pow2(n + 4) == 4 * Pow2(n + 2);
    assert Pow2(n + 6) == 4 * Pow2(n + 4);
  }

  lemma {:induction false} XorZero(a: seq<bool>, b: seq<bool>)
    requires |a| == |b|
    ensures Xor(a, b) == 0 <==> a == b
  {
    XorBounds(a, b);
    DeltaZero(a, b);
  }

  /** Logically closer means smaller exclusive-or. */
  lemma XorOrder(a: seq<bool>, b: seq<bool>, c: seq<bool>)
    requires |a| == |b| == |c| && Delta(a, c) < Delta(b, c)
    ensures Xor(a, c) < Xor(b, c)
  {
    var i := Delta(a, c);
    XorBelow(a, c, i);
    XorAbove(b, c, i);
  }

  lemma XorBelow(a: seq<bool>, b: seq<bool>, i: nat)
    requires |a| == |b| && Delta(a, b) <= i
    ensures Xor(a, b) < Pow2(i)
  {
    XorBounds(a, b);
    Pow2Mono(Delta(a, b), i);
  }

  lemma XorAbove(a: seq<bool>, b: seq<bool>, i: nat)
    requires |a| == |b| && i < Delta(a, b)
    ensures Pow2(i) <= Xor(a, b)
  {
    XorBounds(a, b);
    PowerBelow(i, Delta(a, b) - 1, Xor(a, b));
  }

  lemma PowerBelow(i: nat, j: nat, x: nat)
    requires i <= j && Pow2(j) <= x
    ensures Pow2(i) <= x
  {
    Pow2Mono(i, j);
  }

  /** No two ids are equally far, in exclusive-or, from a third. */
  lemma {:induction false} XorInjective(a: seq<bool>, b: seq<bool>, c: seq<bool>)
    requires |a| == |b| == |c| && Xor(a, c) == Xor(b, c)
    ensures a == b
  {
    if |a| > 0 {
      XorBounds(a[1..], c[1..]);
      XorBounds(b[1..], c[1..]);
      Pow2Mono(Delta(a[1..], c[1..]), |a| - 1);
      Pow2Mono(Delta(b[1..], c[1..]), |a| - 1);
      XorInjective(a[1..], b[1..], c[1..]);
      assert a == [a[0]] + a[1..] && b == [b[0]] + b[1..];
    }
  }

  /** Flipping bit k of the target moves the exclusive-or by exactly that bit's weight. */
  lemma {:induction false} XorFlip(v: seq<bool>, d: seq<bool>, k: nat)
    requires |v| == |d| && 1 <= k <= |d|
    ensures Xor(v, FlipBit(d, k)) ==
            if v[|d| - k] == d[|d| - k] then Xor(v, d) + Pow2(k - 1) else Xor(v, d) - Pow2(k - 1)
  {
    var f := FlipBit(d, k);
    if k < |d| {
      assert f[1..] == FlipBit(d[1..], k);
      XorFlip(v[1..], d[1..], k);
    } else {
      assert f[1..] == d[1..];
    }
  }

  // ----- switch ids

  /** Above the host bits the distance is the distance of the switch parts. */
  lemma SwitchDelta(a: Vid, b: Vid)
    ensures Delta(a[..32], b[..32]) == if Delta(a, b) <= 16 then 0 else Delta(a, b) - 16
  {
    DropLast(a, b, 16);
  }

  lemma {:induction false} DropLast(a: seq<bool>, b: seq<bool>, n: nat)
    requires |a| == |b| >= n
    ensures Delta(a[..|a| - n], b[..|a| - n]) == if Delta(a, b) <= n then 0 else Delta(a, b) - n
  {
    if |a| > n {
      assert a[..|a| - n][1..] == a[1..][..|a| - 1 - n];
      assert b[..|a| - n][1..] == b[1..][..|a| - 1 - n];
      if a[0] == b[0] {
        DropLast(a[1..], b[1..], n);
      }
    }
  }

  lemma SwitchDeltaZero(a: Vid, b: Vid)
    ensures Delta(a, b) <= 16 <==> SwitchVid(a) == SwitchVid(b)
    ensures IsSwitch(a) && IsSwitch(b) && Delta(a, b) <= 16 ==> a == b
  {
    DeltaPrefix(a, b, 16);
    assert SwitchVid(a)[..32] == a[..32] && SwitchVid(b)[..32] == b[..32];
  }

  /** Rendezvous points above the host bits are switch ids, and stay so when re-aimed. */
  lemma RdvPointIsSwitch(a: Vid, k: nat)
    requires HOST_BITS < k <= VID_BITS
    ensures IsSwitch(RdvPoint(a, k))
  {
    var r: Vid := RdvPoint(a, k);
    assert r == r[..32] + r[32..];
    assert r[32..] == Zeros(16);
  }

  lemma FlipIsSwitch(d: Vid, k: nat)
    requires IsSwitch(d) && HOST_BITS < k <= VID_BITS
    ensures IsSwitch(FlipBit(d, k))
  {
    var f: Vid := FlipBit(d, k);
    assert f == f[..32] + f[32..];
    assert f[32..] == SwitchVid(d)[32..] == Zeros(16);
  }

  /** Replacing a target by its switch part does not change distances above the host bits. */
  lemma SwitchVidDelta(a: Vid, d: Vid)
    ensures Delta(d, SwitchVid(d)) <= 16
    ensures Delta(a, d) > 16 ==> Delta(a, SwitchVid(d)) == Delta(a, d)
    ensures Delta(a, d) <= 16 ==> Delta(a, SwitchVid(d)) <= 16
  {
    DeltaPrefix(d, SwitchVid(d), 16);
    assert SwitchVid(d)[..32] == d[..32];
    DeltaUltra(a, d, SwitchVid(d));
  }
}
