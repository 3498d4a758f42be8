/** Virtual ids as the six bytes the packets carry, and the byte-level operations on them,
    proved to compute those on bit strings. */
module VidBytes {
  import opened VidBits

  const VID_LEN: nat := 6

  // ----- bytes as bits

  predicate Bit(b: bv8, j: nat)
    requires j < 8
  {
    b & (0x80 >> j) != 0
  }

  function ByteBits(b: bv8): (r: seq<bool>)
    ensures |r| == 8
  {
    seq(8, j requires 0 <= j < 8 => Bit(b, j))
  }

  function BitsOf(s: seq<bv8>): (r: seq<bool>)
    ensures |r| == 8 * |s|
  {
    if s == [] then [] else ByteBits(s[0]) + BitsOf(s[1..])
  }

  lemma {:induction false} BitsAt(s: seq<bv8>, i: nat, j: nat)
    requires i < |s| && j < 8
    ensures BitsOf(s)[8 * i + j] == Bit(s[i], j)
  {
    if i == 0 {
      assert ByteBits(s[0])[j] == Bit(s[0], j);
    } else {
      BitsAt(s[1..], i - 1, j);
    }
  }

  lemma {:induction false} BitsSplit(s: seq<bv8>, n: nat)
    requires n <= |s|
    ensures BitsOf(s) == BitsOf(s[..n]) + BitsOf(s[n..])
  {
    if n == 0 {
      assert s[0..] == s;
    } else {
      BitsSplit(s[1..], n - 1);
      assert s[1..][..n - 1] == s[..n][1..];
      assert s[1..][n - 1..] == s[n..];
    }
  }

  /** The number of significant bits of a byte. */
  function BitLength(x: bv8): nat {
    if x == 0 then 0 else if x < 2 then 1 else if x < 4 then 2 else if x < 8 then 3
    else if x < 16 then 4 else if x < 32 then 5 else if x < 64 then 6 else if x < 128 then 7 else 8
  }

  lemma Shifted(x: bv8)
    requires x != 0
    ensures BitLength(x >> 1) == BitLength(x) - 1
  {
  }

  // ----- distance

  lemma {:induction false} DeltaIs(a: seq<bool>, b: seq<bool>, d: nat)
    requires |a| == |b| && d <= |a| && forall i :: 0 <= i < |a| - d ==> a[i] == b[i]
    requires d > 0 ==> a[|a| - d] != b[|a| - d]
    ensures Delta(a, b) == d
  {
    if d < |a| {
      DeltaIs(a[1..], b[1..], d);
    }
  }

  lemma TopBit(x: bv8, j: nat)
    requires j < 8
    ensures j < 8 - BitLength(x) ==> !Bit(x, j)
    ensures j == 8 - BitLength(x) ==> Bit(x, j)
  {
  }

  lemma FirstDifference(a: bv8, b: bv8, j: nat)
    requires j < 8
    ensures j < 8 - BitLength(a ^ b) ==> Bit(a, j) == Bit(b, j)
    ensures j == 8 - BitLength(a ^ b) ==> Bit(a, j) != Bit(b, j)
  {
    XorBit(a, b, j);
    TopBit(a ^ b, j);
  }

  /** The distance of two bytes is the length of their exclusive-or. */
  lemma ByteDelta(a: bv8, b: bv8)
    ensures Delta(ByteBits(a), ByteBits(b)) == BitLength(a ^ b)
  {
    var d := BitLength(a ^ b);
    forall j: nat | j < 8
      ensures (j < 8 - d ==> ByteBits(a)[j] == ByteBits(b)[j]) && (j == 8 - d ==> ByteBits(a)[j] != ByteBits(b)[j])
    {
      FirstDifference(a, b, j);
    }
    DeltaIs(ByteBits(a), ByteBits(b), d);
  }

  lemma {:induction false} DeltaAppend(p: seq<bool>, q: seq<bool>, x: seq<bool>, y: seq<bool>)
    requires |p| == |q| && |x| == |y|
    ensures Delta(p + x, q + y) == if p == q then Delta(x, y) else |x| + Delta(p, q)
  {
    if p == [] {
      assert p + x == x && q + y == y;
    } else {
      assert (p + x)[1..] == p[1..] + x && (q + y)[1..] == q[1..] + y;
      DeltaAppend(p[1..], q[1..], x, y);
      assert p[0] == q[0] ==> (p == q <==> p[1..] == q[1..]) by {
        assert p == [p[0]] + p[1..] && q == [q[0]] + q[1..];
      }
    }
  }

  /** The distance is decided at the first byte that differs. */
  lemma DeltaBytes(a: seq<bv8>, b: seq<bv8>, i: nat)
    requires |a| == |b| && i < |a| && a[..i] == b[..i]
    ensures a[i] != b[i] ==> Delta(BitsOf(a), BitsOf(b)) == 8 * (|a| - i - 1) + BitLength(a[i] ^ b[i])
  {
    BitsSplit(a, i);
    BitsSplit(b, i);
    DeltaAppend(BitsOf(a[..i]), BitsOf(b[..i]), BitsOf(a[i..]), BitsOf(b[i..]));
    DeltaFirst(a[i..], b[i..]);
  }

  lemma DeltaFirst(a: seq<bv8>, b: seq<bv8>)
    requires |a| == |b| > 0
    ensures a[0] != b[0] ==> Delta(BitsOf(a), BitsOf(b)) == 8 * (|a| - 1) + BitLength(a[0] ^ b[0])
  {
    ByteDelta(a[0], b[0]);
    DeltaAppend(ByteBits(a[0]), ByteBits(b[0]), BitsOf(a[1..]), BitsOf(b[1..]));
    if a[0] != b[0] {
      Distinct(a[0], b[0]);
      DeltaZero(ByteBits(a[0]), ByteBits(b[0]));
    }
  }

  lemma Distinct(a: bv8, b: bv8)
    requires a != b
    ensures BitLength(a ^ b) > 0
  {
  }

  // ----- masking and flipping in a byte

  lemma Masked(x: bv8, s: nat, j: nat)
    requires s < 8 && j < 8
    ensures Bit((x >> s) << s, j) == (j < 8 - s && Bit(x, j))
  {
    if s == 0 {
    } else if s == 1 {
    } else if s == 2 {
    } else if s == 3 {
    } else if s == 4 {
    } else if s == 5 {
    } else if s == 6 {
    }
  }

  lemma SingleBit(k: nat, j: nat)
    requires 1 <= k <= 8 && j < 8
    ensures Bit(1 << (k - 1), j) <==> j == 8 - k
  {
  }

  lemma XorBit(x: bv8, m: bv8, j: nat)
    requires j < 8
    ensures Bit(x ^ m, j) == (Bit(x, j) != Bit(m, j))
  {
    var b: bv8 := 0x80 >> j;
    OneBit(j);
    assert (x ^ m) & b == (x & b) ^ (m & b);
  }

  lemma OneBit(j: nat)
    requires j < 8
    ensures var b: bv8 := 0x80 >> j; forall x: bv8 {:trigger x & b} :: x & b == 0 || x & b == b
  {
  }

  lemma Toggled(x: bv8, k: nat, j: nat)
    requires 1 <= k <= 8 && j < 8
    ensures Bit(x ^ (1 << (k - 1)), j) == if j == 8 - k then !Bit(x, j) else Bit(x, j)
  {
    XorBit(x, 1 << (k - 1), j);
    SingleBit(k, j);
  }

  // ----- exclusive-or as a number

  lemma Doubled(a: nat, b: nat)
    ensures 2 * a * b == 2 * (a * b)
  {
  }

  lemma {:induction false} Pow2Add(i: nat, j: nat)
    ensures Pow2(i + j) == Pow2(i) * Pow2(j)
  {
    if i > 0 {
      Pow2Add(i - 1, j);
      Doubled(Pow2(i - 1), Pow2(j));
    }
  }

  lemma {:induction false} XorAppend(p: seq<bool>, q: seq<bool>, x: seq<bool>, y: seq<bool>)
    requires |p| == |q| && |x| == |y|
    ensures Xor(p + x, q + y) == Xor(p, q) * Pow2(|x|) + Xor(x, y)
  {
    if p == [] {
      assert p + x == x && q + y == y;
    } else {
      assert (p + x)[1..] == p[1..] + x && (q + y)[1..] == q[1..] + y;
      XorAppend(p[1..], q[1..], x, y);
      Pow2Add(|p| - 1, |x|);
      Distribute(if p[0] != q[0] then Pow2(|p| - 1) else 0, Xor(p[1..], q[1..]), Pow2(|x|));
    }
  }

  lemma Distribute(a: nat, b: nat, c: nat)
    ensures (a + b) * c == a * c + b * c
  {
  }

  lemma Halved(x: bv8)
    ensures x as nat == 2 * ((x >> 1) as nat) + if x & 1 == 1 then 1 else 0
  {
  }

  lemma NextShift(x: bv8, n: nat)
    requires n < 8
    ensures (x >> (8 - n)) == (x >> (7 - n)) >> 1
  {
  }

  lemma LowBit(x: bv8, n: nat)
    requires n < 8
    ensures (x >> (7 - n)) & 1 == 1 <==> Bit(x, n)
  {
  }

  lemma {:induction false} XorSnoc(p: seq<bool>, q: seq<bool>, u: bool, v: bool)
    requires |p| == |q|
    ensures Xor(p + [u], q + [v]) == 2 * Xor(p, q) + if u != v then 1 else 0
  {
    if p != [] {
      assert (p + [u])[1..] == p[1..] + [u] && (q + [v])[1..] == q[1..] + [v];
      XorSnoc(p[1..], q[1..], u, v);
    }
  }

  lemma BitsSnoc(b: bv8, n: nat)
    requires n < 8
    ensures ByteBits(b)[..n + 1] == ByteBits(b)[..n] + [Bit(b, n)]
  {
  }

  function Down(x: bv8, s: nat): (r: nat)
    requires s <= 8
    ensures s == 0 ==> r == x as nat
    ensures s == 8 ==> r == 0
  {
    (x >> s) as nat
  }

  lemma ShiftedNext(x: bv8, n: nat)
    requires n < 8
    ensures Down(x, 7 - n) == 2 * Down(x, 8 - n) + if Bit(x, n) then 1 else 0
  {
    NextShift(x, n);
    LowBit(x, n);
    Halved(x >> (7 - n));
  }

  /** The number that the first n bits of a byte write. */
  function High(x: bv8, n: nat): nat
    requires n <= 8
  {
    if n == 0 then 0 else 2 * High(x, n - 1) + if Bit(x, n - 1) then 1 else 0
  }

  lemma HighIsByte(x: bv8)
    ensures High(x, 8) == x as nat
  {
    HighIs(x, 8);
  }

  lemma {:induction false} HighIs(x: bv8, n: nat)
    requires n <= 8
    ensures High(x, n) == Down(x, 8 - n)
  {
    if n > 0 {
      HighIs(x, n - 1);
      ShiftedNext(x, n - 1);
    }
  }

  lemma {:induction false} XorHigh(a: bv8, b: bv8, n: nat)
    requires n <= 8
    ensures Xor(ByteBits(a)[..n], ByteBits(b)[..n]) == High(a ^ b, n)
  {
    if n > 0 {
      XorHigh(a, b, n - 1);
      BitsSnoc(a, n - 1);
      BitsSnoc(b, n - 1);
      XorSnoc(ByteBits(a)[..n - 1], ByteBits(b)[..n - 1], Bit(a, n - 1), Bit(b, n - 1));
      XorBit(a, b, n - 1);
    }
  }

  lemma XorByte(a: bv8, b: bv8)
    ensures Xor(ByteBits(a), ByteBits(b)) == (a ^ b) as nat
  {
    XorHigh(a, b, 8);
    HighIsByte(a ^ b);
    assert ByteBits(a)[..8] == ByteBits(a) && ByteBits(b)[..8] == ByteBits(b);
  }

  // ----- the class

  class VID {
    const data: array<bv8>

    ghost predicate Valid() {
      data.Length == VID_LEN
    }

    ghost function Bits(): Vid
      requires Valid()
      reads data
    {
      BitsOf(data[..])
    }

    constructor ()
      ensures Valid() && fresh(data) && forall i :: 0 <= i < VID_LEN ==> data[i] == 0
    {
      data := new bv8[VID_LEN](_ => 0);
    }

    /** Counts the bits of a byte up to the highest that is set. */
    static method CountBits(x: bv8) returns (count: nat)
      ensures count == BitLength(x)
    {
      var res := x;
      count := 0;
      while res != 0
        invariant count + BitLength(res) == BitLength(x)
        decreases BitLength(res)
      {
        Shifted(res);
        count := count + 1;
        res := res >> 1;
      }
    }

    /** Counts the equal leading bits, first by bytes, then in the byte that differs. */
    method LogicalDistance(v: VID) returns (d: nat)
      requires Valid() && v.Valid()
      ensures d == Delta(Bits(), v.Bits())
    {
      var lprefix := 0;
      for i := 0 to VID_LEN
        invariant data[..i] == v.data[..i] && lprefix == 8 * i
      {
        if data[i] == v.data[i] {
          lprefix := lprefix + 8;
        } else {
          var count := CountBits(data[i] ^ v.data[i]);
          DeltaBytes(data[..], v.data[..], i);
          return VID_LEN * 8 - (lprefix + 8 - count);
        }
      }
      assert data[..] == data[..VID_LEN] && v.data[..] == v.data[..VID_LEN];
      DeltaZero(Bits(), v.Bits());
      return VID_LEN * 8 - lprefix;
    }

    /** Writes the level-k rendezvous point of this id to an id, which may be this one. */
    method CalculateRdvPoint(k: nat, rvid: VID)
      requires Valid() && rvid.Valid() && 1 <= k <= 49
      modifies rvid.data
      ensures rvid.Bits() == RdvPoint(old(Bits()), k)
    {
      var copyBits := VID_LEN * 8 - k + 1;
      var count := 0;
      var vid := new bv8[VID_LEN](_ => 0);
      while copyBits > 8
        invariant 0 <= count && 8 * count + copyBits == 49 - k && 0 <= copyBits
        invariant vid[..count] == data[..count] && forall i :: count <= i < VID_LEN ==> vid[i] == 0
        modifies vid
      {
        vid[count] := data[count];
        count := count + 1;
        copyBits := copyBits - 8;
      }
      if copyBits > 0 {
        var t := data[count] >> (8 - copyBits);
        vid[count] := t << (8 - copyBits);
      }
      ghost var was := data[..];
      assert was == old(data[..]);
      ghost var result := vid[..];
      RdvBytes(was, result, count, copyBits, k);
      forall i | 0 <= i < VID_LEN {
        rvid.data[i] := vid[i];
      }
      assert rvid.data[..] == result;
    }

    /** Flips the k-th bit from the right in place; beyond the last bit nothing happens. */
    method FlipBit(k: nat)
      requires Valid() && k >= 1
      modifies data
      ensures Bits() == if k <= 48 then VidBits.FlipBit(old(Bits()), k) else old(Bits())
    {
      ghost var was := data[..];
      var rest := k;
      var i := VID_LEN - 1;
      while i >= 0
        invariant -1 <= i < VID_LEN && rest >= 1 && rest + 8 * (VID_LEN - 1 - i) == k
        invariant data[..] == was
      {
        if rest > 8 {
          rest := rest - 8;
        } else {
          data[i] := data[i] ^ (1 << (rest - 1));
          FlipBytes(was, data[..], i, rest);
          return;
        }
        i := i - 1;
      }
    }

    /** The first four bytes, then zeros. */
    method GetSwitchVID() returns (r: VID)
      requires Valid()
      ensures fresh(r) && fresh(r.data) && r.Valid() && r.Bits() == SwitchVid(Bits())
    {
      r := new VID();
      forall i | 0 <= i < 4 {
        r.data[i] := data[i];
      }
      SwitchBytes(data[..], r.data[..]);
    }

    /** The exclusive-or of the first four bytes as one 32-bit number. */
    static method XOR(a: VID, b: VID) returns (dist: nat)
      requires a.Valid() && b.Valid()
      ensures dist == SwitchXor(a.Bits(), b.Bits()) && dist < 0x1_0000_0000
    {
      dist := XorWord(a.data[..], b.data[..]);
      WordSize(a.Bits(), b.Bits(), 32);
    }

    static method XorWord(a: seq<bv8>, b: seq<bv8>) returns (dist: nat)
      requires |a| == |b| == VID_LEN
      ensures dist == SwitchXor(BitsOf(a), BitsOf(b))
    {
      dist := 0;
      for i := 0 to 4
        invariant IsHead(dist, a, b, i)
      {
        var temp := (a[i] ^ b[i]) as nat;
        temp := temp * Pow2(24 - i * 8);
        NextHead(dist, a, b, i);
        dist := dist + temp;
      }
      WholeHead(a, b);
    }
  }

  predicate BitIs(r: seq<bv8>, t: seq<bool>, i: nat, j: nat)
    requires |t| == 8 * |r| && i < |r| && j < 8
  {
    Bit(r[i], j) == t[8 * i + j]
  }

  /** Bit strings are compared byte by byte and bit by bit. */
  lemma SameBits(r: seq<bv8>, t: seq<bool>)
    requires |t| == 8 * |r|
    requires forall i: nat, j: nat {:trigger BitIs(r, t, i, j)} :: i < |r| && j < 8 ==> BitIs(r, t, i, j)
    ensures BitsOf(r) == t
  {
    forall p: nat | p < |t|
      ensures BitsOf(r)[p] == t[p]
    {
      assert BitIs(r, t, p / 8, p % 8);
      SameBit(r, t, p / 8, p % 8);
    }
  }

  lemma SameBit(r: seq<bv8>, t: seq<bool>, i: nat, j: nat)
    requires |t| == 8 * |r| && i < |r| && j < 8 && BitIs(r, t, i, j)
    ensures BitsOf(r)[8 * i + j] == t[8 * i + j]
  {
    BitsAt(r, i, j);
  }

  lemma RdvBytes(s: seq<bv8>, r: seq<bv8>, count: nat, n: nat, k: nat)
    requires |s| == |r| == 6 && 1 <= k <= 49 && n <= 8 && 8 * count + n == 49 - k
    requires r[..count] == s[..count] && forall i :: count < i < 6 ==> r[i] == 0
    requires count < 6 ==> r[count] == if n == 0 then 0 else (s[count] >> (8 - n)) << (8 - n)
    ensures BitsOf(r) == RdvPoint(BitsOf(s), k)
  {
    forall i: nat, j: nat | i < 6 && j < 8
      ensures BitIs(r, RdvPoint(BitsOf(s), k), i, j)
    {
      BitsAt(s, i, j);
      if i < count {
        assert r[i] == r[..count][i] == s[..count][i] == s[i];
      } else if i == count && n > 0 {
        Masked(s[i], 8 - n, j);
      }
    }
    SameBits(r, RdvPoint(BitsOf(s), k));
  }

  lemma FlipAt(b: seq<bool>, i: nat, k: nat, h: nat, j: nat)
    requires |b| == 48 && i < 6 && 1 <= k <= 8 && h < 6 && j < 8
    ensures VidBits.FlipBit(b, k + 8 * (5 - i))[8 * h + j] ==
            if h == i && j == 8 - k then !b[8 * h + j] else b[8 * h + j]
  {
  }

  lemma FlipBytes(s: seq<bv8>, r: seq<bv8>, i: nat, k: nat)
    requires |s| == |r| == 6 && i < 6 && 1 <= k <= 8 && r == s[i := s[i] ^ (1 << (k - 1))]
    ensures BitsOf(r) == VidBits.FlipBit(BitsOf(s), k + 8 * (5 - i))
  {
    var t := VidBits.FlipBit(BitsOf(s), k + 8 * (5 - i));
    forall h: nat, j: nat | h < 6 && j < 8
      ensures BitIs(r, t, h, j)
    {
      BitsAt(s, h, j);
      FlipAt(BitsOf(s), i, k, h, j);
      ToggledAt(s, r, i, k, h, j);
    }
    SameBits(r, t);
  }

  lemma ToggledAt(s: seq<bv8>, r: seq<bv8>, i: nat, k: nat, h: nat, j: nat)
    requires |s| == |r| == 6 && i < 6 && 1 <= k <= 8 && r == s[i := s[i] ^ (1 << (k - 1))] && h < 6 && j < 8
    ensures Bit(r[h], j) == if h == i && j == 8 - k then !Bit(s[h], j) else Bit(s[h], j)
  {
    Toggled(s[i], k, j);
  }

  lemma SwitchBytes(s: seq<bv8>, r: seq<bv8>)
    requires |s| == |r| == 6 && forall i :: 0 <= i < 6 ==> r[i] == if i < 4 then s[i] else 0
    ensures BitsOf(r) == SwitchVid(BitsOf(s))
  {
    forall i: nat, j: nat | i < 6 && j < 8
      ensures BitIs(r, SwitchVid(BitsOf(s)), i, j)
    {
      BitsAt(s, i, j);
    }
    SameBits(r, SwitchVid(BitsOf(s)));
  }

  /** What the first i bytes add to the exclusive-or of the first four. */
  ghost function Head(a: seq<bv8>, b: seq<bv8>, i: nat): nat
    requires |a| == |b| == 6 && i <= 4
  {
    Xor(BitsOf(a[..i]), BitsOf(b[..i])) * Pow2(32 - 8 * i)
  }

  ghost predicate IsHead(dist: int, a: seq<bv8>, b: seq<bv8>, i: int)
    requires |a| == |b| == 6
  {
    0 <= i <= 4 && dist == Head(a, b, i)
  }

  lemma NextHead(dist: nat, a: seq<bv8>, b: seq<bv8>, i: nat)
    requires |a| == |b| == 6 && i < 4 && IsHead(dist, a, b, i)
    ensures IsHead(dist + (a[i] ^ b[i]) as nat * Pow2(24 - i * 8), a, b, i + 1)
  {
    NextByte(a, b, i, (a[i] ^ b[i]) as nat);
  }

  lemma WholeHead(a: seq<bv8>, b: seq<bv8>)
    requires |a| == |b| == 6
    ensures Head(a, b, 4) == SwitchXor(BitsOf(a), BitsOf(b))
  {
    BitsSplit(a, 4);
    BitsSplit(b, 4);
    assert BitsOf(a)[..32] == BitsOf(a[..4]) && BitsOf(b)[..32] == BitsOf(b[..4]);
    assert Pow2(0) == 1;
  }

  lemma NextByte(a: seq<bv8>, b: seq<bv8>, i: nat, y: nat)
    requires |a| == |b| == 6 && i < 4 && y == (a[i] ^ b[i]) as nat
    ensures Head(a, b, i + 1) == Head(a, b, i) + y * Pow2(24 - 8 * i)
  {
    var x, x' := Xor(BitsOf(a[..i]), BitsOf(b[..i])), Xor(BitsOf(a[..i + 1]), BitsOf(b[..i + 1]));
    XorNext(a, b, i, 8);
    NextHeads(a, b, i, x, x', y, 24 - 8 * i);
  }

  lemma NextHeads(a: seq<bv8>, b: seq<bv8>, i: nat, x: nat, x': nat, y: nat, n: nat)
    requires |a| == |b| == 6 && i < 4 && n == 24 - 8 * i && x' == x * Pow2(8) + y
    requires x == Xor(BitsOf(a[..i]), BitsOf(b[..i])) && x' == Xor(BitsOf(a[..i + 1]), BitsOf(b[..i + 1]))
    ensures Head(a, b, i + 1) == Head(a, b, i) + y * Pow2(n)
  {
    HeadIs(a, b, i, n + 8);
    HeadIs(a, b, i + 1, n);
    NextWeight(x, x', y, 8, n, n + 8);
  }

  lemma HeadIs(a: seq<bv8>, b: seq<bv8>, i: nat, n: nat)
    requires |a| == |b| == 6 && i <= 4 && n == 32 - 8 * i
    ensures Head(a, b, i) == Xor(BitsOf(a[..i]), BitsOf(b[..i])) * Pow2(n)
  {
  }

  lemma NextWeight(x: nat, x': nat, y: nat, eight: nat, n: nat, m: nat)
    requires x' == x * Pow2(eight) + y && m == eight + n
    ensures x' * Pow2(n) == x * Pow2(m) + y * Pow2(n)
  {
    Pow2Add(eight, n);
    Weighted(x, y, Pow2(eight), Pow2(n));
  }

  lemma XorNext(a: seq<bv8>, b: seq<bv8>, i: nat, eight: nat)
    requires |a| == |b| == 6 && i < 4 && eight == 8
    ensures Xor(BitsOf(a[..i + 1]), BitsOf(b[..i + 1])) ==
            Xor(BitsOf(a[..i]), BitsOf(b[..i])) * Pow2(eight) + (a[i] ^ b[i]) as nat
  {
    LastByte(a, i);
    LastByte(b, i);
    XorAppend(BitsOf(a[..i]), BitsOf(b[..i]), ByteBits(a[i]), ByteBits(b[i]));
    XorByte(a[i], b[i]);
  }

  lemma Weighted(x: nat, y: nat, p: nat, w: nat)
    ensures (x * p + y) * w == x * (p * w) + y * w
  {
    Distribute(x * p, y, w);
    assert x * p * w == x * (p * w);
  }

  lemma LastByte(s: seq<bv8>, i: nat)
    requires i < |s|
    ensures BitsOf(s[..i + 1]) == BitsOf(s[..i]) + ByteBits(s[i])
  {
    BitsSplit(s[..i + 1], i);
    assert s[..i + 1][..i] == s[..i] && s[..i + 1][i..] == [s[i]];
    assert BitsOf([s[i]]) == ByteBits(s[i]) + BitsOf([]);
  }

  lemma WordSize(a: Vid, b: Vid, n: nat)
    requires n == 32
    ensures SwitchXor(a, b) < 0x1_0000_0000
  {
    XorBounds(a[..32], b[..32]);
    Pow2Mono(Delta(a[..32], b[..32]), n);
    Pow2Word(n);
  }
}
