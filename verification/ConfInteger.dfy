/** Reading an integer of 8, 16, 32 or 64 bits, signed or not, in a base from 2 to 36.
    The source computes in 64-bit unsigned arithmetic; `Wrap` marks each operation that is
    reduced modulo 2^64. */
module ConfInteger {
  import opened Wrappers
  import opened Arith
  import opened Numerals

  datatype Errno = Fine | BadFormat | Invalid | Overflow

  // ----- the integer types

  /** Sizes are in bytes; a negative size is that of a signed type. */
  predicate IsSize(size: int) {
    size == 1 || size == 2 || size == 4 || size == 8 || size == -1 || size == -2 || size == -4 || size == -8
  }

  /** Half the number of values of a type, and that number. */
  function Half(bytes: int): int {
    if bytes == 1 then 0x80
    else if bytes == 2 then 0x8000
    else if bytes == 4 then 0x8000_0000
    else 0x8000_0000_0000_0000
  }

  function Modulus(bytes: int): int {
    2 * Half(bytes)
  }

  function Bytes(size: int): int {
    if size < 0 then -size else size
  }

  function Least(size: int): int {
    if size < 0 then -Half(-size) else 0
  }

  function Greatest(size: int): int {
    if size < 0 then Half(-size) - 1 else Modulus(size) - 1
  }

  function Clamped(v: int, size: int): int {
    if v < Least(size) then Least(size) else if v > Greatest(size) then Greatest(size) else v
  }

  /** The number that a bit pattern, given as a natural number, stands for in a type. */
  function Meaning(bits: nat, size: int): int {
    if size < 0 && bits >= Half(-size) then bits - Modulus(-size) else bits
  }

  function Wrap(n: int): (w: nat)
    ensures w < 0x1_0000_0000_0000_0000
    ensures 0 <= n < 0x1_0000_0000_0000_0000 ==> w == n
  {
    n % 0x1_0000_0000_0000_0000
  }

  // ----- what the text denotes

  /** The value of a digit, or 36. Letters count only in bases above ten. */
  function DigitOf(c: char, base: nat): (d: nat)
    ensures d <= 36
  {
    if '0' <= c <= '9' then c as int - '0' as int
    else if base > 10 && 'A' <= c <= 'Z' then c as int - 'A' as int + 10
    else if base > 10 && 'a' <= c <= 'z' then c as int - 'a' as int + 10
    else 36
  }

  predicate IsDigit(c: char, base: nat) {
    DigitOf(c, base) < base
  }

  /** A single underscore that something follows. */
  predicate Separates(s: string, i: nat) {
    i + 1 < |s| && s[i] == '_' && s[i + 1] != '_'
  }

  /** The end of the longest run of digits and separating underscores from i. */
  function RunEnd(s: string, i: nat, base: nat): (r: nat)
    requires i <= |s|
    ensures i <= r <= |s|
    decreases |s| - i
  {
    if i < |s| && (IsDigit(s[i], base) || Separates(s, i)) then RunEnd(s, i + 1, base) else i
  }

  /** The number written by the digits between two positions. */
  function NumberIn(s: string, a: nat, b: nat, base: nat): nat
    requires a <= b <= |s|
    decreases b
  {
    if a == b then 0
    else if s[b - 1] == '_' then NumberIn(s, a, b - 1, base)
    else NumberIn(s, a, b - 1, base) * base + DigitOf(s[b - 1], base)
  }

  lemma {:induction false} NumberGrows(s: string, a: nat, b: nat, c: nat, base: nat)
    requires a <= b <= c <= |s| && base >= 1
    ensures NumberIn(s, a, b, base) <= NumberIn(s, a, c, base)
    decreases c
  {
    if b < c {
      NumberGrows(s, a, b, c - 1, base);
      MulAtLeast(base, NumberIn(s, a, c - 1, base));
    }
  }

  /** The sign, where the digits start, and the base, which a prefix can decide. */
  datatype Lead = Lead(negative: bool, start: nat, base: nat)

  function LeadOf(s: string, base: nat, signed: bool): (l: Lead)
    ensures l.start <= |s|
  {
    var negative := s != "" && signed && s[0] == '-';
    var i := if s != "" && (negative || s[0] == '+') then 1 else 0;
    if (base == 0 || base == 16) && i + 1 < |s| && s[i] == '0' && (s[i + 1] == 'x' || s[i + 1] == 'X') then
      Lead(negative, i + 2, 16)
    else if base == 0 then Lead(negative, i, if i < |s| && s[i] == '0' then 8 else 10)
    else Lead(negative, i, base)
  }

  function Signed(n: int, negative: bool): int {
    if negative then -n else n
  }

  /** Whether the text starts with a number, and the value it denotes. */
  predicate HasDigits(s: string, l: Lead) {
    l.start < |s| && IsDigit(s[l.start], l.base)
  }

  function Denoted(s: string, l: Lead): int
    requires l.start <= |s|
  {
    var n: int := NumberIn(s, l.start, RunEnd(s, l.start, l.base), l.base);
    Signed(n, l.negative)
  }

  // ----- the parser

  lemma SplitProduct(hi: nat, lo: nat, base: nat, digit: nat, unit: nat)
    ensures (hi * unit + lo) * base + digit == (hi * base) * unit + (lo * base + digit)
  {
    calc {
      (hi * unit + lo) * base;
      (hi * unit) * base + lo * base;
      { Swap(hi, unit, base); }
      (hi * base) * unit + lo * base;
    }
  }

  lemma Swap(a: nat, b: nat, c: nat)
    ensures (a * b) * c == (a * c) * b
  {
  }

  lemma ProductBelow(a: nat, b: nat, limit: nat, base: nat)
    requires a < limit && b <= base
    ensures a * b <= limit * base
  {
    assert limit * base - a * b == (limit - a) * base + a * (base - b);
    MulNonNeg(limit - a, base);
    MulNonNeg(a, base - b);
  }

  /** One more digit, without division. The high six bits of the value and the rest are
      multiplied apart, so that no intermediate result wraps: the outcome is exactly
      val * base + digit, or overflow if that does not fit in 64 bits. */
  method AddDigit(val: nat, base: nat, digit: nat) returns (val': nat, overflow: bool)
    requires val < 0x1_0000_0000_0000_0000 && 2 <= base <= 36 && digit < base
    ensures overflow <==> val * base + digit >= 0x1_0000_0000_0000_0000
    ensures val' == if overflow then val else val * base + digit
  {
    overflow := false;
    if val <= 0x400_0000_0000_0000 {
      SmallProduct(val, base);
      val' := Wrap(Wrap(val * base) + digit);
    } else {
      val', overflow := AddSplitDigit(val, base, digit);
    }
  }

  lemma SmallProduct(val: nat, base: nat)
    requires val <= 0x400_0000_0000_0000 && base <= 36
    ensures 0 <= val * base <= 0x9000_0000_0000_0000
  {
    assert 0x400_0000_0000_0000 * 36 - val * base == (0x400_0000_0000_0000 - val) * 36 + val * (36 - base);
    MulNonNeg(val, base);
    MulNonNeg(val, 36 - base);
  }

  method AddSplitDigit(val: nat, base: nat, digit: nat) returns (val': nat, overflow: bool)
    requires val < 0x1_0000_0000_0000_0000 && 2 <= base <= 36 && digit < base
    ensures overflow <==> val * base + digit >= 0x1_0000_0000_0000_0000
    ensures val' == if overflow then val else val * base + digit
  {
    var hi, lo := val / 0x400_0000_0000_0000, val % 0x400_0000_0000_0000;
    ghost var p, q := Parts(val, base, digit, hi, lo);
    var msv := Wrap(hi * base);
    var lsv := Wrap(Wrap(lo * base) + digit);
    assert msv == p && lsv == q + digit;
    if lsv >= 0x400_0000_0000_0000 {
      Carry(lsv);
      msv := Wrap(msv + lsv / 0x400_0000_0000_0000);
      lsv := lsv % 0x400_0000_0000_0000;
    }
    if msv >= 64 {
      overflow := true;
      val' := val;
    } else {
      overflow := false;
      val' := Wrap(Wrap(msv * 0x400_0000_0000_0000) + lsv);
    }
  }

  lemma Carry(n: nat)
    requires n < 0x1_0000_0000_0000_0000
    ensures n / 0x400_0000_0000_0000 < 64 && n % 0x400_0000_0000_0000 < 0x400_0000_0000_0000
    ensures n / 0x400_0000_0000_0000 * 0x400_0000_0000_0000 + n % 0x400_0000_0000_0000 == n
  {
  }

  lemma Parts(val: nat, base: nat, digit: nat, hi: nat, lo: nat) returns (p: nat, q: nat)
    requires val < 0x1_0000_0000_0000_0000 && 2 <= base <= 36 && digit < base
    requires hi == val / 0x400_0000_0000_0000 && lo == val % 0x400_0000_0000_0000
    ensures p == hi * base <= 2304 && q == lo * base <= 0x9000_0000_0000_0000
    ensures val * base + digit == p * 0x400_0000_0000_0000 + q + digit
  {
    Carry(val);
    p, q := hi * base, lo * base;
    ProductBelow(hi, base, 64, 36);
    ProductBelow(lo, base, 0x400_0000_0000_0000, 36);
    SplitProduct(hi, lo, base, digit, 0x400_0000_0000_0000);
  }

  /** The digit loop: reads the whole run, and knows whether the number fits in 64 bits. */
  method ReadDigits(s: string, start: nat, base: nat) returns (pos: nat, val: nat, errno: Errno)
    requires start < |s| && s[start] != '_' && 2 <= base <= 36
    ensures pos == RunEnd(s, start, base)
    ensures errno == BadFormat <==> pos == start
    ensures pos > start ==> errno == if NumberIn(s, start, pos, base) < 0x1_0000_0000_0000_0000 then Fine else Overflow
    ensures val < 0x1_0000_0000_0000_0000
    ensures errno == Fine ==> val == NumberIn(s, start, pos, base)
  {
    pos, val, errno := start, 0, BadFormat;
    while pos < |s|
      invariant start <= pos <= |s| && RunEnd(s, start, base) == RunEnd(s, pos, base)
      invariant errno == if pos == start then BadFormat
                         else if NumberIn(s, start, pos, base) < 0x1_0000_0000_0000_0000 then Fine
                         else Overflow
      invariant val < 0x1_0000_0000_0000_0000
      invariant errno != Overflow ==> val == NumberIn(s, start, pos, base)
    {
      var digit := DigitOf(s[pos], base);
      if s[pos] == '_' && pos + 1 < |s| && s[pos + 1] != '_' {
        // skipped
      } else {
        if digit >= base {
          break;
        } else if val == 0 && errno == BadFormat {
          errno := Fine;
        }
        var overflow;
        val, overflow := AddDigit(val, base, digit);
        NumberGrows(s, start, pos, pos + 1, base);
        if overflow {
          errno := Overflow;
        }
      }
      pos := pos + 1;
    }
  }

  /** The maximum check. */
  method Limit(val: nat, errno: Errno, negative: bool, size: int) returns (v: nat, errno': Errno)
    requires IsSize(size) && val < 0x1_0000_0000_0000_0000 && (negative ==> size < 0)
    requires errno == Fine || errno == Overflow
    ensures var kept := if negative then Half(-size) else Greatest(size);
            if errno == Overflow || val > kept then v == kept && errno' == Overflow
            else v == (if negative then Wrap(0 - val) else val) && errno' == Fine
  {
    v := val;
    errno' := errno;
    if size < 8 {
      var maxval;
      if size < 0 {
        maxval := Half(-size);
        if !negative {
          maxval := maxval - 1;
        }
      } else {
        maxval := Modulus(size) - 1;
      }
      if errno != Fine || v > maxval {
        v := maxval;
        errno' := Overflow;
      } else if negative {
        v := Wrap(0 - v);
      }
    } else if errno != Fine {
      v := Wrap(-1);
    }
  }

  lemma SignedMeans(bits: nat, bytes: int)
    requires bytes > 0
    ensures Meaning(bits, -bytes) == if bits >= Half(bytes) then bits - 2 * Half(bytes) else bits
  {
  }

  lemma KeptFits(negative: bool, size: int)
    requires IsSize(size) && (negative ==> size < 0)
    ensures 0 < (if negative then Half(-size) else Greatest(size)) < Modulus(Bytes(size))
  {
  }

  /** Assigns to a type of that many bytes: the low bits are kept, which is enough for a value
      of the type and for one that was negated modulo 2^64. */
  method Assign(v: nat, bytes: int) returns (bits: nat)
    requires IsSize(bytes) && bytes > 0 && v < 0x1_0000_0000_0000_0000
    ensures v < Modulus(bytes) ==> bits == v
    ensures v >= 0x1_0000_0000_0000_0000 - Half(bytes) ==> bits == v - 0x1_0000_0000_0000_0000 + Modulus(bytes)
  {
    if bytes == 1 {
      bits := v % 0x100;
    } else if bytes == 2 {
      bits := v % 0x1_0000;
    } else if bytes == 4 {
      bits := v % 0x1_0000_0000;
    } else {
      bits := v;
    }
  }

  /** The maximum check and the assignment: the stored bits mean the clamped value. */
  method Fit(val: nat, errno: Errno, negative: bool, size: int) returns (bits: nat, errno': Errno)
    requires IsSize(size) && val < 0x1_0000_0000_0000_0000 && (negative ==> size < 0)
    requires errno == Fine || errno == Overflow
    ensures bits < Modulus(Bytes(size))
    ensures errno == Fine ==> var v := Signed(val, negative);
              Meaning(bits, size) == Clamped(v, size) && errno' == if Clamped(v, size) == v then Fine else Overflow
    ensures errno == Overflow ==>
              Meaning(bits, size) == (if negative then Least(size) else Greatest(size)) && errno' == Overflow
  {
    var v;
    v, errno' := Limit(val, errno, negative, size);
    KeptFits(negative, size);
    bits := Assign(v, Bytes(size));
    if size < 0 {
      SignedMeans(bits, -size);
    }
  }

  /** The sign, the base prefix, and the check of the base. */
  method ReadLead(s: string, base: nat, signed: bool) returns (l: Lead)
    ensures l == LeadOf(s, base, signed)
  {
    var i := 0;
    var negative := false;
    if i < |s| && signed && s[i] == '-' {
      negative := true;
      i := i + 1;
    } else if i < |s| && s[i] == '+' {
      i := i + 1;
    }
    if (base == 0 || base == 16) && i + 1 < |s| && s[i] == '0' && (s[i + 1] == 'x' || s[i + 1] == 'X') {
      return Lead(negative, i + 2, 16);
    } else if base == 0 && i < |s| && s[i] == '0' {
      return Lead(negative, i, 8);
    } else if base == 0 {
      return Lead(negative, i, 10);
    } else {
      return Lead(negative, i, base);
    }
  }

  /** What a successful call stores and reports: the denoted value clamped to the type, and
      overflow exactly when clamping changed it. */
  predicate Delivers(bits: nat, errno: Errno, v: int, size: int) {
    && bits < Modulus(Bytes(size))
    && Meaning(bits, size) == Clamped(v, size)
    && errno == if Clamped(v, size) == v then Fine else Overflow
  }

  /** Reads an integer from the start of s. Nothing is stored when the base is invalid, when
      there are no digits, or when the whole text is asked for and something is left over; the
      position is then 0. */
  method BasicInteger(s: string, flags: nat, size: int) returns (pos: nat, result: Option<nat>, errno: Errno)
    requires IsSize(size)
    ensures var l := LeadOf(s, flags % 64, size < 0);
            var stop := RunEnd(s, l.start, l.base);
            if !(2 <= l.base <= 36) then (pos, result, errno) == (0, None, Invalid)
            else if !HasDigits(s, l) || (flags / 64 % 2 == 1 && stop < |s|)
            then (pos, result, errno) == (0, None, BadFormat)
            else
              && pos == (if s[stop - 1] == '_' then stop - 1 else stop)
              && result.Some? && Delivers(result.value, errno, Denoted(s, l), size)
  {
    var l := ReadLead(s, flags % 64, size < 0);
    if l.base < 2 || l.base > 36 {
      return 0, None, Invalid;
    }
    if l.start >= |s| || s[l.start] == '_' {
      return 0, None, BadFormat;
    }
    var val;
    pos, val, errno := ReadDigits(s, l.start, l.base);
    if errno == BadFormat {
      return 0, None, BadFormat;
    } else if flags / 64 % 2 == 1 && pos != |s| {
      return 0, None, BadFormat;
    }
    var bits;
    bits, errno := FitRead(val, errno, NumberIn(s, l.start, pos, l.base), l.negative, size);
    result := Some(bits);
    if pos > 0 && s[pos - 1] == '_' {
      pos := pos - 1;
    }
  }

  method FitRead(val: nat, errno: Errno, ghost n: nat, negative: bool, size: int) returns (bits: nat, errno': Errno)
    requires IsSize(size) && val < 0x1_0000_0000_0000_0000 && (negative ==> size < 0)
    requires errno == if n < 0x1_0000_0000_0000_0000 then Fine else Overflow
    requires errno == Fine ==> val == n
    ensures Delivers(bits, errno', Signed(n, negative), size)
  {
    bits, errno' := Fit(val, errno, negative, size);
  }

  // ----- reading what was written

  lemma DigitsRead(d: nat, base: nat)
    requires d < base <= 36
    ensures DigitOf(DigitChar(d), base) == d && DigitChar(d) != '_'
  {
  }

  predicate AllDigits(s: string, a: nat, b: nat, base: nat) {
    forall i :: a <= i < b && i < |s| ==> IsDigit(s[i], base) && s[i] != '_'
  }

  lemma {:induction false} RunOfDigits(s: string, a: nat, b: nat, base: nat)
    requires a <= b <= |s| && AllDigits(s, a, b, base)
    ensures RunEnd(s, a, base) == RunEnd(s, b, base)
    decreases b - a
  {
    if a < b {
      RunOfDigits(s, a + 1, b, base);
    }
  }

  lemma SplitLast(s: string, a: nat, t: string, c: char)
    requires a + |t| + 1 <= |s| && s[a..a + |t| + 1] == t + [c]
    ensures s[a..a + |t|] == t && s[a + |t|] == c
  {
    assert s[a..a + |t|] == s[a..a + |t| + 1][..|t|];
    assert s[a + |t|] == s[a..a + |t| + 1][|t|];
  }

  predicate Spells(s: string, a: nat, t: string) {
    a + |t| <= |s| && s[a..a + |t|] == t
  }

  predicate Reads(s: string, a: nat, b: nat, base: nat, n: nat)
    requires a <= b <= |s|
  {
    AllDigits(s, a, b, base) && NumberIn(s, a, b, base) == n
  }

  lemma NumeralSplit(n: nat, base: nat, s: string, a: nat) returns (q: nat, r: nat)
    requires 2 <= base <= 36 && Spells(s, a, Numeral(n, base))
    ensures r < base && n == q * base + r && s[a + |Numeral(n, base)| - 1] == DigitChar(r)
    ensures if n < base then q == 0 && |Numeral(n, base)| == 1
            else q < n && |Numeral(n, base)| == |Numeral(q, base)| + 1 && Spells(s, a, Numeral(q, base))
  {
    q, r := Divide(n, base);
    if n < base {
      assert s[a] == s[a..a + 1][0];
    } else {
      SplitLast(s, a, Numeral(q, base), DigitChar(r));
    }
  }

  /** A numeral written anywhere in a text is read back as the number. */
  lemma {:induction false} NumeralRead(n: nat, base: nat, s: string, a: nat)
    requires 2 <= base <= 36 && Spells(s, a, Numeral(n, base))
    ensures Reads(s, a, a + |Numeral(n, base)|, base, n)
    decreases n
  {
    var b := a + |Numeral(n, base)|;
    var q, r := NumeralSplit(n, base, s, a);
    if n < base {
      LastDigitRead(s, a, b, 0, n, base);
    } else {
      NumeralRead(q, base, s, a);
      LastDigitRead(s, a, b, q, r, base);
    }
  }

  lemma LastDigitRead(s: string, a: nat, b: nat, q: nat, d: nat, base: nat)
    requires a < b <= |s| && 2 <= base <= 36 && d < base && s[b - 1] == DigitChar(d)
    requires Reads(s, a, b - 1, base, q)
    ensures Reads(s, a, b, base, q * base + d)
  {
    DigitsRead(d, base);
  }

  /** Round trip: a number written in a base, with a minus sign if the type is signed and the
      number negative, is read whole and denotes the same number. */
  lemma NumeralRoundTrip(v: int, base: nat, signed: bool)
    requires 2 <= base <= 36 && (v < 0 ==> signed)
    ensures var s := if v < 0 then "-" + Numeral(-v, base) else Numeral(v, base);
            var l := LeadOf(s, base, signed);
            l.base == base && HasDigits(s, l) && RunEnd(s, l.start, base) == |s| && Denoted(s, l) == v
  {
    var n := if v < 0 then -v else v;
    var s := if v < 0 then "-" + Numeral(n, base) else Numeral(n, base);
    var a := if v < 0 then 1 else 0;
    assert s[a..|s|] == Numeral(n, base);
    NumeralRead(n, base, s, a);
    RunOfDigits(s, a, |s|, base);
    assert IsDigit(s[a], base);
  }
}
