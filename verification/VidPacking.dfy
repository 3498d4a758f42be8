/** Padding codes to 32 digits and packing them into switch ids. */
module VidPacking {
  import opened VidBits
  import opened Embedding

  function ValueOf(bits: seq<bool>): (v: nat) {
    if |bits| == 0 then 0 else 2 * ValueOf(bits[..|bits| - 1]) + if bits[|bits| - 1] then 1 else 0
  }

  /** The last n binary digits of v. */
  function NatBits(v: nat, n: nat): (bits: seq<bool>)
    ensures |bits| == n
  {
    if n == 0 then [] else NatBits(v / 2, n - 1) + [v % 2 == 1]
  }

  lemma {:induction false} BitsOfValue(bits: seq<bool>)
    ensures NatBits(ValueOf(bits), |bits|) == bits
  {
    if |bits| > 0 {
      var n := |bits| - 1;
      BitsOfValue(bits[..n]);
      assert bits == bits[..n] + [bits[n]];
    }
  }

  lemma {:induction false} ValueBound(bits: seq<bool>)
    ensures ValueOf(bits) < Pow2(|bits|)
  {
    if |bits| > 0 {
      ValueBound(bits[..|bits| - 1]);
    }
  }

  /** The digits of q * 2^b + r are those of q, then those of r. */
  lemma {:induction false} BitsJoin(v: nat, q: nat, r: nat, a: nat, b: nat)
    requires v == q * Pow2(b) + r && r < Pow2(b)
    ensures NatBits(v, a + b) == NatBits(q, a) + NatBits(r, b)
    decreases b
  {
    if b == 0 {
      assert NatBits(q, a) + NatBits(r, 0) == NatBits(q, a);
    } else {
      var x := q * Pow2(b - 1);
      assert q * Pow2(b) == 2 * x;
      BitsJoin(v / 2, q, r / 2, a, b - 1);
      assert v % 2 == r % 2;
      assert NatBits(q, a) + NatBits(r, b) == NatBits(q, a) + NatBits(r / 2, b - 1) + [r % 2 == 1];
    }
  }

  /** What the C library reads from the digits, as an unsigned long, cut to 32 bits. */
  function Strtoul32(code: Code): (v: nat)
    ensures v < 0x1_0000_0000
  {
    var v := ValueOf(code);
    if v < 0x1_0000_0000 then v
    else if v < 0x1_0000_0000_0000_0000 then v % 0x1_0000_0000
    else 0xFFFF_FFFF
  }

  const WORD_BITS := VID_BITS - HOST_BITS

  function PackedVid(code: Code): Vid {
    NatBits(Strtoul32(code), WORD_BITS) + Zeros(HOST_BITS)
  }

  /** The top byte, and what is left below it. */
  method SplitByte(vidval: nat, shift: nat) returns (byte: nat, rest: nat)
    requires vidval < Pow2(shift + 8)
    ensures rest < Pow2(shift)
    ensures NatBits(vidval, 8 + shift) == NatBits(byte, 8) + NatBits(rest, shift)
  {
    var base := Pow2(shift);
    byte, rest := vidval / base, vidval % base;
    assert vidval == byte * base + rest;
    BitsJoin(vidval, byte, rest, 8, shift);
  }

  /** Packing into four bytes, most significant first, and two zero bytes. */
  method Pack(code: Code) returns (vid: Vid)
    ensures vid == PackedVid(code)
  {
    var vidval: nat := Strtoul32(code);
    Pow2Word(WORD_BITS);
    var bits := PackBytes(vidval, WORD_BITS);
    vid := bits + Zeros(HOST_BITS);
  }

  method PackBytes(value: nat, size: nat) returns (bits: seq<bool>)
    requires size % 8 == 0 && value < Pow2(size)
    ensures bits == NatBits(value, size)
  {
    bits := [];
    var vidval: nat, shift: nat := value, size;
    ghost var left := NatBits(value, size);
    while shift > 0
      invariant shift % 8 == 0 && 0 <= shift <= size && vidval < Pow2(shift)
      invariant left == NatBits(vidval, shift) && bits + left == NatBits(value, size)
    {
      shift := shift - 8;
      var byte, rest := SplitByte(vidval, shift);
      Regroup(bits, NatBits(byte, 8), NatBits(rest, shift));
      bits := bits + NatBits(byte, 8);
      vidval := rest;
      left := NatBits(vidval, shift);
    }
  }

  lemma Regroup(a: seq<bool>, b: seq<bool>, c: seq<bool>)
    ensures a + (b + c) == a + b + c
  {
  }

  lemma PackedExactly(code: Code)
    requires |code| == WORD_BITS
    ensures PackedVid(code) == code + Zeros(HOST_BITS)
  {
    ValueBound(code);
    Pow2Word(|code|);
    BitsOfValue(code);
  }

  /** Zeros put in front of and behind a code of length len to make 32 digits: two behind,
      if there is room, and the rest in front. */
  function PrefixLen(len: nat): nat {
    if len < 30 then 30 - len else 0
  }

  function SuffixLen(len: nat): nat {
    if len < 30 then 2 else if len < 32 then 32 - len else 0
  }

  function Extended(code: Code, len: nat): Code {
    Zeros(PrefixLen(len)) + code + Zeros(SuffixLen(len))
  }

  /** The padding loop: node 0's code sets the number of zeros for all. */
  method PadAll(codes: seq<Code>) returns (padded: seq<Code>)
    requires |codes| > 0
    ensures |padded| == |codes|
    ensures forall i :: 0 <= i < |codes| ==> padded[i] == Extended(codes[i], |codes[0]|)
  {
    padded := codes;
    var len := |codes[0]|;
    var vidlen := len;
    var prefixlen: int := 32 - 2 - vidlen;
    ghost var p, q := 0, 0;
    NothingAdded(codes);
    while vidlen < 32
      invariant AllPadded(codes, p, q, padded) && vidlen == len + p + q
      invariant p <= PrefixLen(len) && (q > 0 ==> p == PrefixLen(len))
      invariant p + q <= PrefixLen(len) + SuffixLen(len)
      invariant prefixlen == if p == PrefixLen(len) && (len < 30 || q > 0) then 0 else 30 - len - p
      decreases 32 - vidlen
    {
      ZeroAdded(codes, p, q, padded);
      padded := AddZero(padded, prefixlen > 0);
      if prefixlen > 0 {
        p := p + 1;
      } else {
        q := q + 1;
      }
      prefixlen := if prefixlen > 0 then prefixlen - 1 else 0;
      vidlen := |padded[0]|;
    }
  }

  ghost predicate AllPadded(codes: seq<Code>, p: nat, q: nat, padded: seq<Code>) {
    |padded| == |codes| && forall i :: 0 <= i < |codes| ==> padded[i] == Zeros(p) + codes[i] + Zeros(q)
  }

  lemma NothingAdded(codes: seq<Code>)
    ensures AllPadded(codes, 0, 0, codes)
  {
  }

  /** One more zero in front of every code, or behind it. */
  function WithZero(codes: seq<Code>, front: bool): (r: seq<Code>)
    ensures |r| == |codes|
  {
    seq(|codes|, i requires 0 <= i < |codes| => if front then [false] + codes[i] else codes[i] + [false])
  }

  method AddZero(codes: seq<Code>, front: bool) returns (r: seq<Code>)
    ensures r == WithZero(codes, front)
  {
    r := codes;
    for i := 0 to |codes|
      invariant |r| == |codes|
      invariant forall j :: 0 <= j < |codes| ==> r[j] == if j < i then WithZero(codes, front)[j] else codes[j]
    {
      if front {
        r := r[i := [false] + r[i]];
      } else {
        r := r[i := r[i] + [false]];
      }
    }
  }

  lemma ZeroAdded(codes: seq<Code>, p: nat, q: nat, padded: seq<Code>)
    requires AllPadded(codes, p, q, padded)
    ensures AllPadded(codes, p + 1, q, WithZero(padded, true)) && AllPadded(codes, p, q + 1, WithZero(padded, false))
  {
    forall i | 0 <= i < |codes|
      ensures [false] + padded[i] == Zeros(p + 1) + codes[i] + Zeros(q)
      ensures padded[i] + [false] == Zeros(p) + codes[i] + Zeros(q + 1)
    {
    }
  }

  lemma {:induction false} SuffixDelta(a: seq<bool>, b: seq<bool>, z: seq<bool>)
    requires |a| == |b|
    ensures Delta(a + z, b + z) == if Delta(a, b) == 0 then 0 else Delta(a, b) + |z|
  {
    if |a| == 0 {
      assert a + z == z && b + z == z;
      DeltaZero(z, z);
    } else {
      assert (a + z)[1..] == a[1..] + z && (b + z)[1..] == b[1..] + z;
      if a[0] == b[0] {
        SuffixDelta(a[1..], b[1..], z);
      }
    }
  }

  /** What follows the digits of a code of length len in its packed id. */
  function Tail(len: nat): seq<bool> {
    Zeros(SuffixLen(len)) + Zeros(HOST_BITS)
  }

  lemma PackedShape(a: Code)
    requires |a| <= 32
    ensures PackedVid(Extended(a, |a|)) == Zeros(PrefixLen(|a|)) + (a + Tail(|a|))
    ensures IsSwitch(PackedVid(Extended(a, |a|)))
  {
    var e := Extended(a, |a|);
    PackedExactly(e);
    assert e + Zeros(HOST_BITS) == Zeros(PrefixLen(|a|)) + (a + Tail(|a|));
    assert PackedVid(e)[..32] == e;
  }

  /** Where the digits of a code end up: right before two zeros and the host bits, or from the
      first bit on if there are more than thirty of them. */
  lemma PackedBits(a: Code, i: nat)
    requires |a| <= 32 && i < VID_BITS
    ensures var first := if |a| < 30 then 30 - |a| else 0;
            PackedVid(Extended(a, |a|))[i] <==> first <= i < first + |a| && a[i - first]
  {
    PackedShape(a);
  }

  /** Packing codes of one common length up to 32 keeps them apart, and shifts all distances
      between them by the same amount. */
  lemma PackedDelta(a: Code, b: Code)
    requires |a| == |b| <= 32
    ensures Delta(PackedVid(Extended(a, |a|)), PackedVid(Extended(b, |a|))) ==
              if Delta(a, b) == 0 then 0 else Delta(a, b) + SuffixLen(|a|) + HOST_BITS
    ensures IsSwitch(PackedVid(Extended(a, |a|)))
  {
    PackedShape(a);
    PackedShape(b);
    PrefixDelta(Zeros(PrefixLen(|a|)), a + Tail(|a|), b + Tail(|a|));
    SuffixDelta(a, b, Tail(|a|));
  }
}
