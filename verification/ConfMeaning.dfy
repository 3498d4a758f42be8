/** What configuration text stands for: unquoting takes each part by its own rules, and leaves
    the characters outside quotes as they are. */
module ConfMeaning {
  import opened ConfInteger
  import opened ConfText
  import opened ConfTokens
  import opened ConfArguments

  // ----- meanings

  /** The character that a backslash and this character stand for. */
  function Escaped(c: char): char {
    match c
    case 'a' => 7 as char
    case 'b' => 8 as char
    case 'f' => 12 as char
    case 'n' => '\n'
    case 'r' => '\r'
    case 't' => '\t'
    case 'v' => 11 as char
    case _ => c
  }

  predicate IsHexBit(b: AngleBit) {
    b.Raw? && HexValue(b.c) >= 0
  }

  /** The hexadecimal digits between "\<" and ">"; comments and other characters do not count. */
  function PairDigits(bits: seq<AngleBit>): seq<nat> {
    if bits == [] then []
    else
      (if IsHexBit(bits[0]) then [HexValue(bits[0].c) as nat] else []) + PairDigits(bits[1..])
  }

  /** One byte for every two digits; an odd one at the end is lost. */
  function PairBytes(ds: seq<nat>): string {
    if |ds| < 2 then "" else [ToChar(16 * ds[0] + ds[1])] + PairBytes(ds[2..])
  }

  function InsideMeaning(b: QuoteBit): string {
    match b
    case Char(c) => [c]
    case Slash(c) => [Escaped(c)]
    case Octal(_, value) => [ToChar(value)]
    case Hex(_, value) => [ToChar(value)]
    case Break(_) => ""
    case Pairs(bits) => PairBytes(PairDigits(bits))
  }

  function QuoteMeaning(inside: seq<QuoteBit>): string {
    if inside == [] then "" else InsideMeaning(inside[0]) + QuoteMeaning(inside[1..])
  }

  function TokenMeaning(t: Token): string {
    match t
    case Blank(c) => [c]
    case Note(_) => ""
    case Plain(c) => [c]
    case Single(body) => body
    case Double(inside) => QuoteMeaning(inside)
    case Angle(bits) => PairBytes(PairDigits(bits))
    case Open(_) => ""
  }

  function Meaning(ts: seq<Token>): string {
    if ts == [] then "" else TokenMeaning(ts[0]) + Meaning(ts[1..])
  }

  // ----- escapes

  /** From i on, with d digits of value c pending, the loop ends at e with that text. */
  ghost predicate Decodes(s: string, i: nat, c: nat, d: nat, out: string, text: string, e: nat) {
    forall o {:trigger AngleEscape(s, i, c, d, o)} :: o == out ==> AngleEscape(s, i, c, d, o) == (text, e)
  }

  lemma {:induction false} FirstDigit(s: string, i: nat, h: nat, out: string, text: string, e: nat)
    requires i < |s| && s[i] != '>' && h == HexValue(s[i]) && Decodes(s, i + 1, h, 1, out, text, e)
    ensures Decodes(s, i, 0, 0, out, text, e)
  {
    assert AngleEscape(s, i + 1, h, 1, out) == (text, e);
  }

  lemma {:induction false} SecondDigit(s: string, i: nat, h: nat, l: nat, out: string, text: string, e: nat)
    requires i < |s| && s[i] != '>' && l == HexValue(s[i])
    requires Decodes(s, i + 1, 0, 0, out + [ToChar(16 * h + l)], text, e)
    ensures Decodes(s, i, h, 1, out, text, e)
  {
    assert AngleEscape(s, i + 1, 0, 0, out + [ToChar(16 * h + l)]) == (text, e);
  }

  lemma {:induction false} BitIgnored(s: string, i: nat, b: AngleBit, c: nat, d: nat, out: string, text: string, e: nat)
    requires BitAt(s, i, b) && !IsHexBit(b) && Decodes(s, i + BitLength(b), c, d, out, text, e)
    ensures Decodes(s, i, c, d, out, text, e)
  {
    assert AngleEscape(s, i + BitLength(b), c, d, out) == (text, e);
    if b.Aside? {
      NoteFound(s, i, i + b.length);
      assert s[i] == '/';
    }
  }

  lemma {:induction false} AngleEnds(s: string, i: nat, c: nat, d: nat, out: string)
    requires i < |s| && s[i] == '>'
    ensures Decodes(s, i, c, d, out, out, i + 1)
  {
  }

  predicate Pending(c: nat, d: nat, pending: seq<nat>) {
    if pending == [] then c == 0 && d == 0 else pending == [c] && d == 1
  }

  lemma {:induction false} NoneMade(pending: seq<nat>, out: string)
    requires |pending| <= 1
    ensures out + PairBytes(pending + []) == out
  {
    assert pending + [] == pending;
  }

  lemma {:induction false} PairMade(out: string, h: nat, l: nat, rest: seq<nat>)
    ensures out + PairBytes([h] + ([l] + rest)) == out + [ToChar(16 * h + l)] + PairBytes([] + rest)
  {
    assert [] + rest == rest;
    assert ([h] + ([l] + rest))[2..] == rest;
  }

  lemma {:induction false} NothingBefore(ds: seq<nat>)
    ensures [] + ds == ds
  {
  }

  /** The loop over the digits, with at most one of them pending. */
  lemma {:induction false} AngleMeans(s: string, i: nat, bits: seq<AngleBit>, c: nat, d: nat, pending: seq<nat>,
      out: string, text: string, e: nat)
    requires BitsAt(s, i, bits) && e == i + BitsLength(bits) + 1 && e <= |s| && s[e - 1] == '>'
    requires Pending(c, d, pending) && text == out + PairBytes(pending + PairDigits(bits))
    ensures Decodes(s, i, c, d, out, text, e)
    decreases |bits|
  {
    if bits == [] {
      NoneMade(pending, out);
      AngleEnds(s, i, c, d, out);
    } else if !IsHexBit(bits[0]) {
      NothingBefore(PairDigits(bits[1..]));
      AngleMeans(s, i + BitLength(bits[0]), bits[1..], c, d, pending, out, text, e);
      BitIgnored(s, i, bits[0], c, d, out, text, e);
    } else {
      var l: nat := HexValue(s[i]);
      if pending == [] {
        NothingBefore([l] + PairDigits(bits[1..]));
        AngleMeans(s, i + 1, bits[1..], l, 1, [l], out, text, e);
        FirstDigit(s, i, l, out, text, e);
      } else {
        PairMade(out, c, l, PairDigits(bits[1..]));
        AngleMeans(s, i + 1, bits[1..], 0, 0, [], out + [ToChar(16 * c + l)], text, e);
        SecondDigit(s, i, c, l, out, text, e);
      }
    }
  }

  lemma {:induction false} OctalMeans(s: string, a: nat, k: nat, j: nat)
    requires a <= k <= j <= |s| && j - a <= 3 && (forall p :: a <= p < j ==> IsOctal(s[p]))
    requires j - a < 3 && j < |s| ==> !IsOctal(s[j])
    ensures OctalEscape(s, k, NumberIn(s, a, k, 8), k - a) == ([ToChar(NumberIn(s, a, j, 8))], j)
    decreases j - k
  {
    if k < j {
      OctalMeans(s, a, k + 1, j);
    }
  }

  lemma {:induction false} HexMeans(s: string, a: nat, k: nat, j: nat)
    requires a <= k <= j <= |s| && (forall p :: a <= p < j ==> HexValue(s[p]) >= 0)
    requires j < |s| ==> HexValue(s[j]) < 0
    ensures HexEscape(s, k, NumberIn(s, a, k, 16)) == ([ToChar(NumberIn(s, a, j, 16))], j)
    decreases j - k
  {
    if k < j {
      HexIsDigit(s[k]);
      HexMeans(s, a, k + 1, j);
    }
  }

  lemma {:induction false} HexIsDigit(c: char)
    requires HexValue(c) >= 0
    ensures DigitOf(c, 16) == HexValue(c) && c != '_'
  {
  }

  /** An escape between double quotes gives what it stands for. */
  lemma {:induction false} EscapeMeans(s: string, i: nat, b: QuoteBit)
    requires InsideAt(s, i, b) && !b.Char?
    ensures i + 1 < |s| && s[i] == '\\' && Escape(s, i) == (InsideMeaning(b), i + InsideLength(b))
  {
    var j := i + InsideLength(b);
    match b
    case Slash(_) =>
    case Octal(_, _) =>
      assert IsOctal(s[i + 1]);
      OctalMeans(s, i + 1, i + 1, j);
    case Hex(_, _) =>
      HexMeans(s, i + 2, i + 2, j);
    case Break(_) =>
    case Pairs(bits) =>
      AngleEscapeMeans(s, i, bits);
  }

  lemma {:induction false} AngleEscapeMeans(s: string, i: nat, bits: seq<AngleBit>)
    requires AngleAt(s, i, bits)
    ensures Escape(s, i) == (PairBytes(PairDigits(bits)), i + BitsLength(bits) + 3)
  {
    assert [] + PairDigits(bits) == PairDigits(bits);
    assert "" + PairBytes(PairDigits(bits)) == PairBytes(PairDigits(bits));
    AngleMeans(s, i + 2, bits, 0, 0, [], "", PairBytes(PairDigits(bits)), i + BitsLength(bits) + 3);
  }

  // ----- unquoting

  /** From i on, inside quote q, unquoting gives out and then what it gives from j on, inside q'. */
  ghost predicate Gives(x: string, i: nat, q: char, out: string, j: nat, q': char) {
    forall c {:trigger Unquoted(x, i, c)} :: c == q ==> Unquoted(x, i, c) == out + Unquoted(x, j, q')
  }

  lemma {:induction false} GivesBoth(x: string, i: nat, q: char, a: string, j: nat, q': char, b: string, k: nat,
      q'': char, all: string)
    requires Gives(x, i, q, a, j, q') && Gives(x, j, q', b, k, q'') && all == a + b
    ensures Gives(x, i, q, all, k, q'')
  {
    var rest := Unquoted(x, k, q'');
    assert a + (b + rest) == a + b + rest;
    assert Unquoted(x, j, q') == b + rest;
  }

  lemma {:induction false} GivesNothing(x: string, i: nat, q: char)
    ensures Gives(x, i, q, "", i, q)
  {
    assert "" + Unquoted(x, i, q) == Unquoted(x, i, q);
  }

  lemma {:induction false} InsideGives(x: string, i: nat, b: QuoteBit)
    requires InsideAt(x, i, b)
    ensures Gives(x, i, '\"', InsideMeaning(b), i + InsideLength(b), '\"')
  {
    if b.Char? {
      CharInside(x, i);
    } else {
      EscapeMeans(x, i, b);
      EscapeGives(x, i, InsideMeaning(b), i + InsideLength(b));
    }
  }

  lemma {:induction false} CharInside(x: string, i: nat)
    requires i < |x| && x[i] != '\"' && x[i] != '\\'
    ensures Gives(x, i, '\"', [x[i]], i + 1, '\"')
  {
  }

  lemma {:induction false} EscapeGives(x: string, i: nat, out: string, j: nat)
    requires i + 1 < |x| && x[i] == '\\' && Escape(x, i) == (out, j)
    ensures Gives(x, i, '\"', out, j, '\"')
  {
    assert Unquoted(x, i, '\"') == Expanded(x, i, '\"');
  }

  lemma {:induction false} QuoteGives(x: string, i: nat, inside: seq<QuoteBit>)
    requires QuoteAt(x, i, inside)
    ensures Gives(x, i, '\"', QuoteMeaning(inside), i + QuoteLength(inside), '\"')
    decreases |inside|
  {
    if inside == [] {
      GivesNothing(x, i, '\"');
    } else {
      var j := i + InsideLength(inside[0]);
      InsideGives(x, i, inside[0]);
      QuoteGives(x, j, inside[1..]);
      GivesBoth(x, i, '\"', InsideMeaning(inside[0]), j, '\"', QuoteMeaning(inside[1..]), i + QuoteLength(inside), '\"',
                QuoteMeaning(inside));
    }
  }

  /** Between single quotes, every character stands for itself. */
  lemma {:induction false} BodyGives(x: string, i: nat, j: nat)
    requires i <= j < |x| && forall p :: i <= p < j ==> x[p] != '\''
    ensures Gives(x, i, '\'', x[i..j], j, '\'')
    decreases j - i
  {
    if i == j {
      GivesNothing(x, i, '\'');
    } else {
      BodyGives(x, i + 1, j);
      assert Gives(x, i, '\'', [x[i]], i + 1, '\'');
      GivesBoth(x, i, '\'', [x[i]], i + 1, '\'', x[i + 1..j], j, '\'', x[i..j]);
    }
  }

  lemma {:induction false} QuoteMark(x: string, i: nat, q: char)
    requires i < |x| && x[i] == q && (q == '\'' || q == '\"')
    ensures Gives(x, i, BARE, "", i + 1, q) && Gives(x, i, q, "", i + 1, BARE)
  {
    assert "" + Unquoted(x, i + 1, q) == Unquoted(x, i + 1, q);
    assert "" + Unquoted(x, i + 1, BARE) == Unquoted(x, i + 1, BARE);
  }

  /** A quoted part gives what is in it. */
  lemma {:induction false} QuotedGives(x: string, i: nat, q: char, out: string, j: nat)
    requires i < |x| && x[i] == q && j < |x| && x[j] == q && (q == '\'' || q == '\"') && Gives(x, i + 1, q, out, j, q)
    ensures Gives(x, i, BARE, out, j + 1, BARE)
  {
    QuoteMark(x, i, q);
    NothingAdded(out);
    GivesBoth(x, i, BARE, "", i + 1, q, out, j, q, out);
    QuoteCloses(x, i, q, out, j);
  }

  lemma {:induction false} NothingAdded(out: string)
    ensures "" + out == out && out + "" == out
  {
  }

  lemma {:induction false} QuoteCloses(x: string, i: nat, q: char, out: string, j: nat)
    requires j < |x| && x[j] == q && (q == '\'' || q == '\"') && Gives(x, i, BARE, out, j, q)
    ensures Gives(x, i, BARE, out, j + 1, BARE)
  {
    QuoteMark(x, j, q);
    NothingAdded(out);
    GivesBoth(x, i, BARE, out, j, q, "", j + 1, BARE, out);
  }

  lemma {:induction false} PlainGives(x: string, i: nat, c: char)
    requires i < |x| && x[i] == c && c != '\'' && c != '\"' && !(c == '\\' && i + 1 < |x| && x[i + 1] == '<')
    ensures Gives(x, i, BARE, [c], i + 1, BARE)
  {
  }

  lemma {:induction false} CharGives(x: string, i: nat, t: Token, c: char)
    requires TokenAt(x, i, t, false) && (t == Blank(c) || t == Plain(c))
    ensures Gives(x, i, BARE, [c], i + 1, BARE)
  {
    assert TokenFits(x, i, t, false);
    PlainGives(x, i, c);
  }

  lemma {:induction false} DoubleGives(x: string, i: nat, inside: seq<QuoteBit>)
    requires TokenAt(x, i, Double(inside), false)
    ensures Gives(x, i, BARE, QuoteMeaning(inside), i + QuoteLength(inside) + 2, BARE)
  {
    assert TokenFits(x, i, Double(inside), false);
    QuoteGives(x, i + 1, inside);
    QuotedGives(x, i, '\"', QuoteMeaning(inside), i + QuoteLength(inside) + 1);
  }

  lemma {:induction false} SingleGives(x: string, i: nat, body: string)
    requires TokenAt(x, i, Single(body), false)
    ensures Gives(x, i, BARE, body, i + |body| + 2, BARE)
  {
    assert TokenFits(x, i, Single(body), false);
    var j := i + |body| + 2;
    forall p | i + 1 <= p < j - 1
      ensures x[p] != '\''
    {
      assert x[p] == body[p - i - 1];
    }
    BodyGives(x, i + 1, j - 1);
    QuotedGives(x, i, '\'', body, j - 1);
  }

  lemma {:induction false} AngleGives(x: string, i: nat, bits: seq<AngleBit>)
    requires TokenAt(x, i, Angle(bits), false)
    ensures Gives(x, i, BARE, PairBytes(PairDigits(bits)), i + BitsLength(bits) + 3, BARE)
  {
    assert TokenFits(x, i, Angle(bits), false);
    AngleEscapeMeans(x, i, bits);
    assert Unquoted(x, i, BARE) == Expanded(x, i, BARE);
  }

  lemma {:induction false} TokenGives(x: string, i: nat, t: Token)
    requires TokenAt(x, i, t, false) && !t.Note? && !t.Open?
    ensures Gives(x, i, BARE, TokenMeaning(t), i + TokenLength(t), BARE)
  {
    match t
    case Blank(c) =>
      CharGives(x, i, t, c);
    case Plain(c) =>
      CharGives(x, i, t, c);
    case Single(body) =>
      SingleGives(x, i, body);
    case Double(inside) =>
      DoubleGives(x, i, inside);
    case Angle(bits) =>
      AngleGives(x, i, bits);
  }

  // ----- after comments are removed

  /** Neither comments nor unfinished parts. */
  predicate NoNotes(ts: seq<Token>) {
    ts == [] || (!ts[0].Note? && !ts[0].Open? && NoNotes(ts[1..]))
  }

  /** Text without comments gives the meanings of its parts, one after the other. */
  lemma {:induction false} TokensGive(x: string, i: nat, ts: seq<Token>)
    requires TokensAt(x, i, ts, false) && NoNotes(ts)
    ensures Gives(x, i, BARE, Meaning(ts), i + Length(ts), BARE)
    decreases |ts|
  {
    if ts == [] {
      GivesNothing(x, i, BARE);
    } else {
      var j := i + TokenLength(ts[0]);
      TokenGives(x, i, ts[0]);
      TokensGive(x, j, ts[1..]);
      GivesBoth(x, i, BARE, TokenMeaning(ts[0]), j, BARE, Meaning(ts[1..]), i + Length(ts), BARE, Meaning(ts));
    }
  }

  predicate Finished(parts: seq<Part>) {
    parts == [] || (NoneOpen(parts[0].piece) && Finished(parts[1..]))
  }

  function Meanings(parts: seq<Part>): seq<string> {
    if parts == [] then [] else [Meaning(parts[0].piece)] + Meanings(parts[1..])
  }

  /** Tokens of a whole text, and what they mean. */
  ghost predicate Covers(x: string, ts: seq<Token>, means: string) {
    TokensAt(x, 0, ts, false) && NoNotes(ts) && Length(ts) == |x| && Meaning(ts) == means
  }

  lemma {:induction false} CoveredUnquotes(x: string, ts: seq<Token>, means: string)
    requires Covers(x, ts, means)
    ensures Unquoted(x, 0, BARE) == means
  {
    TokensGive(x, 0, ts);
    assert means + "" == means;
  }

  lemma {:induction false} TokensAppend(x: string, i: nat, a: seq<Token>, b: seq<Token>, all: seq<Token>)
    requires TokensAt(x, i, a, false) && TokensAt(x, i + Length(a), b, false) && all == a + b
    ensures TokensAt(x, i, all, false)
    decreases |a|
  {
    if a == [] {
      assert all == b;
    } else {
      assert all[0] == a[0] && all[1..] == a[1..] + b;
      TokensAppend(x, i + TokenLength(a[0]), a[1..], b, all[1..]);
    }
  }

  lemma {:induction false} LengthsAdd(a: seq<Token>, b: seq<Token>, all: seq<Token>)
    requires NoNotes(a) && NoNotes(b) && all == a + b
    ensures NoNotes(all) && Length(all) == Length(a) + Length(b)
    decreases |a|
  {
    if a == [] {
      assert all == b;
    } else {
      assert all[0] == a[0] && all[1..] == a[1..] + b;
      LengthsAdd(a[1..], b, all[1..]);
    }
  }

  lemma {:induction false} MeaningsAdd(a: seq<Token>, b: seq<Token>, all: seq<Token>)
    requires all == a + b
    ensures Meaning(all) == Meaning(a) + Meaning(b)
    decreases |a|
  {
    if a == [] {
      assert all == b && "" + Meaning(b) == Meaning(b);
    } else {
      assert all[0] == a[0] && all[1..] == a[1..] + b;
      MeaningsAdd(a[1..], b, all[1..]);
      Assoc(TokenMeaning(a[0]), Meaning(a[1..]), Meaning(b));
    }
  }

  lemma {:induction false} NoNotesNoneOpen(ts: seq<Token>)
    requires NoNotes(ts)
    ensures NoneOpen(ts)
  {
    if ts != [] {
      NoNotesNoneOpen(ts[1..]);
    }
  }

  lemma {:induction false} PieceNoNotes(ts: seq<Token>)
    requires EndsInItem(ts) && NoneOpen(ts)
    ensures NoNotes(ts)
  {
    if |ts| > 1 {
      PieceNoNotes(ts[1..]);
    } else {
      assert ts[1..] == [];
    }
  }

  /** A piece of s, standing alone. */
  lemma {:induction false} PieceCovers(s: string, a: nat, ts: seq<Token>)
    requires TokensAt(s, a, ts, false) && EndsInItem(ts) && NoneOpen(ts) && a + Length(ts) <= |s|
    ensures Covers(s[a..a + Length(ts)], ts, Meaning(ts))
  {
    var x := s[a..a + Length(ts)];
    TokensMove(s, x, 0, a, ts, false);
    PieceNoNotes(ts);
  }

  /** Tokens from i to j, and what they mean; looked at only where the tokens are. */
  ghost predicate Stretch(z: string, i: nat, ts: seq<Token>, means: string, j: nat) {
    forall u {:trigger TokensAt(z, i, u, false)} ::
      u == ts ==> TokensAt(z, i, u, false) && NoNotes(u) && i + Length(u) == j && Meaning(u) == means
  }

  lemma {:induction false} StretchesJoin(z: string, i: nat, a: seq<Token>, ma: string, j: nat, b: seq<Token>,
      mb: string, k: nat)
    requires Stretch(z, i, a, ma, j) && Stretch(z, j, b, mb, k)
    ensures Stretch(z, i, a + b, ma + mb, k)
  {
    assert TokensAt(z, i, a, false) && TokensAt(z, j, b, false);
    TokensAppend(z, i, a, b, a + b);
    LengthsAdd(a, b, a + b);
    MeaningsAdd(a, b, a + b);
  }

  lemma {:induction false} BlankStretch(z: string, k: nat)
    requires k < |z| && z[k] == ' '
    ensures Stretch(z, k, [Blank(' ')], " ", k + 1)
  {
    var blank := [Blank(' ')];
    assert TokenFits(z, k, Blank(' '), false);
    assert blank[1..] == [] && TokensAt(z, k, blank, false);
  }

  lemma {:induction false} CoveredStretch(x: string, ts: seq<Token>, means: string, z: string, k: nat)
    requires Covers(x, ts, means) && k + |x| <= |z| && z[k..k + |x|] == x && (k + |x| < |z| ==> z[k + |x|] == ' ')
    ensures Stretch(z, k, ts, means, k + |x|)
  {
    forall p | k <= p < k + |x|
      ensures z[p] == x[p - k]
    {
      assert z[k..k + |x|][p - k] == z[p];
    }
    NoNotesNoneOpen(ts);
    TokensMove(x, z, k, 0 - k, ts, false);
  }

  lemma {:induction false} StretchCovers(z: string, ts: seq<Token>, means: string)
    requires Stretch(z, 0, ts, means, |z|)
    ensures Covers(z, ts, means)
  {
    assert TokensAt(z, 0, ts, false);
  }

  /** Two covered texts with a space between them. */
  lemma {:induction false} SpacedCovers(x: string, ts: seq<Token>, means: string, y: string, us: seq<Token>,
      means': string, z: string)
    returns (all: seq<Token>)
    requires Covers(x, ts, means) && Covers(y, us, means') && z == x + " " + y
    ensures Covers(z, all, means + " " + means')
  {
    assert z[0..|x|] == x && z[|x|] == ' ' && z[|x| + 1..|z|] == y;
    CoveredStretch(x, ts, means, z, 0);
    CoveredStretch(y, us, means', z, |x| + 1);
    all := StretchesSpaced(z, ts, means, |x|, us, means');
  }

  lemma {:induction false} StretchesSpaced(z: string, ts: seq<Token>, means: string, k: nat, us: seq<Token>,
      means': string)
    returns (all: seq<Token>)
    requires k < |z| && z[k] == ' ' && Stretch(z, 0, ts, means, k) && Stretch(z, k + 1, us, means', |z|)
    ensures Covers(z, all, means + " " + means')
  {
    BlankStretch(z, k);
    StretchesJoin(z, 0, ts, means, k, [Blank(' ')], " ", k + 1);
    all := ts + [Blank(' ')] + us;
    StretchesJoin(z, 0, ts + [Blank(' ')], means + " ", k + 1, us, means', |z|);
    StretchCovers(z, all, means + " " + means');
  }

  lemma {:induction false} PartCovers(s: string, i: nat, p: Part, first: bool)
    requires PartAt(s, i, p, first, false) && NoneOpen(p.piece) && i <= |s|
    ensures Covers(Sub(s, i + Length(p.gap), i + PartLength(p)), p.piece, Meaning(p.piece)) && i + PartLength(p) <= |s|
  {
    Reaches(s, i, p.gap, false);
    Reaches(s, i + Length(p.gap), p.piece, false);
    PieceCovers(s, i + Length(p.gap), p.piece);
    assert TokenFits(s, i + Length(p.gap), p.piece[0], false);
  }

  lemma {:induction false} NextCovers(texts: seq<string>, means: seq<string>, ts: seq<Token>, y: string,
      us: seq<Token>, m: string)
    returns (all: seq<Token>)
    requires texts != [] && means != [] && Covers(Spaced(texts), ts, Spaced(means)) && Covers(y, us, m)
    ensures Covers(Spaced(texts + [y]), all, Spaced(means + [m]))
  {
    SpacedSnoc(texts, y);
    SpacedSnoc(means, m);
    all := SpacedCovers(Spaced(texts), ts, Spaced(means), y, us, m, Spaced(texts + [y]));
  }

  /** Some tokens cover the spaced texts and mean the others; looked at only where they are spaced. */
  ghost predicate Covered(texts: seq<string>, means: seq<string>) {
    forall t {:trigger Spaced(t)} :: t == texts ==> exists ts :: Covers(Spaced(t), ts, Spaced(means))
  }

  lemma {:induction false} PartCovered(s: string, i: nat, p: Part, texts: seq<string>, means: seq<string>)
    requires PartAt(s, i, p, false, false) && NoneOpen(p.piece) && i <= |s|
    requires texts != [] && means != [] && Covered(texts, means)
    ensures i + PartLength(p) <= |s|
    ensures Covered(texts + [Sub(s, i + Length(p.gap), i + PartLength(p))], means + [Meaning(p.piece)])
  {
    var text := Spaced(texts);
    var ts :| Covers(text, ts, Spaced(means));
    PartCovers(s, i, p, false);
    var us := NextCovers(texts, means, ts, Sub(s, i + Length(p.gap), i + PartLength(p)), p.piece, Meaning(p.piece));
  }

  lemma {:induction false} FirstMeaning(parts: seq<Part>, means: seq<string>)
    requires parts != []
    ensures means + Meanings(parts) == means + [Meaning(parts[0].piece)] + Meanings(parts[1..])
  {
  }

  lemma {:induction false} FirstPartCovered(s: string, i: nat, parts: seq<Part>, texts: seq<string>, means: seq<string>)
    returns (t: seq<string>, m: seq<string>)
    requires parts != [] && PartAt(s, i, parts[0], false, false) && NoneOpen(parts[0].piece)
    requires i <= |s| && texts != [] && means != [] && Covered(texts, means)
    ensures t != [] && m != [] && Covered(t, m) && i + PartLength(parts[0]) <= |s|
    ensures texts + Pieces(s, i, parts) == t + Pieces(s, i + PartLength(parts[0]), parts[1..])
    ensures means + Meanings(parts) == m + Meanings(parts[1..])
  {
    t := texts + [Sub(s, i + Length(parts[0].gap), i + PartLength(parts[0]))];
    m := means + [Meaning(parts[0].piece)];
    PartCovered(s, i, parts[0], texts, means);
    FirstPiece(s, i, parts, texts);
    FirstMeaning(parts, means);
  }

  lemma {:induction false} AllCovered(s: string, i: nat, parts: seq<Part>, texts: seq<string>, means: seq<string>,
      texts': seq<string>, means': seq<string>)
    requires PartsAt(s, i, parts, false, false) && Finished(parts) && i <= |s|
    requires texts != [] && means != [] && Covered(texts, means)
    requires texts' == texts + Pieces(s, i, parts) && means' == means + Meanings(parts)
    ensures Covered(texts', means')
    decreases |parts|
  {
    if parts == [] {
      assert texts + [] == texts && means + [] == means;
    } else {
      var t, m := FirstPartCovered(s, i, parts, texts, means);
      AllCovered(s, i + PartLength(parts[0]), parts[1..], t, m, texts', means');
    }
  }

  lemma {:induction false} FirstCovered(s: string, p: Part)
    requires PartAt(s, 0, p, true, false) && NoneOpen(p.piece)
    ensures Covered([Sub(s, Length(p.gap), PartLength(p))], [Meaning(p.piece)]) && PartLength(p) <= |s|
  {
    PartCovers(s, 0, p, true);
    assert Covers(Spaced([Sub(s, Length(p.gap), PartLength(p))]), p.piece, Spaced([Meaning(p.piece)]));
  }

  lemma {:induction false} PiecesUnquote(s: string, parts: seq<Part>, texts: seq<string>, means: seq<string>)
    requires PartsAt(s, 0, parts, true, false) && Finished(parts) && parts != []
    requires texts == Pieces(s, 0, parts) && means == Meanings(parts)
    ensures Unquoted(Spaced(texts), 0, BARE) == Spaced(means)
  {
    var j := PartLength(parts[0]);
    FirstCovered(s, parts[0]);
    AllCovered(s, j, parts[1..], [Sub(s, Length(parts[0].gap), j)], [Meaning(parts[0].piece)], texts, means);
    var text := Spaced(texts);
    var ts :| Covers(text, ts, Spaced(means));
    CoveredUnquotes(text, ts, Spaced(means));
  }

  /** Unquoting: comments go, and every piece gives what its parts stand for. */
  lemma {:induction false} UnquotedMeans(s: string, parts: seq<Part>, last: seq<Token>, e: nat)
    requires LaidOut(s, 0, parts, last, e, false) && Finished(parts)
    ensures UnquoteOf(s) == Spaced(Meanings(parts))
  {
    CommentsRemoved(s, 0, parts, last, e, false);
    if parts == [] {
      assert Unquoted("", 0, BARE) == "";
    } else {
      PiecesUnquote(s, parts, Pieces(s, 0, parts), Meanings(parts));
    }
  }
}
