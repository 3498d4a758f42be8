/** Argument lists: text laid out as arguments is split into exactly those, whatever quoted
    parts, comments and blanks are in them, and joining arguments is undone by splitting. */
module ConfArguments {
  import opened ConfInteger
  import opened ConfText
  import opened ConfTokens

  // ----- splitting at the commas between arguments

  datatype Arg = Arg(parts: seq<Part>, last: seq<Token>)

  function ArgLength(a: Arg): nat {
    PartsLength(a.parts) + Length(a.last)
  }

  /** Arguments, with commas between them, from position i to the end of the text. */
  ghost predicate ArgsAt(s: string, i: nat, args: seq<Arg>)
    decreases |args|
  {
    && args != []
    && var e := i + ArgLength(args[0]);
       && LaidOut(s, i, args[0].parts, args[0].last, e, true)
       && if |args| == 1 then Ends(s, e, false) else e < |s| && s[e] == ',' && ArgsAt(s, e + 1, args[1..])
  }

  /** Each argument's pieces, with single spaces between them. */
  function Values(s: string, i: nat, args: seq<Arg>): seq<string>
    decreases |args|
  {
    if args == [] then []
    else [Spaced(Pieces(s, i, args[0].parts))] + Values(s, i + ArgLength(args[0]) + 1, args[1..])
  }

  function WithoutEmptyLast(vs: seq<string>): seq<string> {
    if vs != [] && vs[|vs| - 1] == "" then vs[..|vs| - 1] else vs
  }

  lemma {:induction false} MoreValues(v: string, rest: seq<string>)
    requires rest != []
    ensures WithoutEmptyLast([v] + rest) == [v] + WithoutEmptyLast(rest)
  {
  }

  lemma {:induction false} LastArgument(s: string, i: nat, v: string, stop: nat)
    requires i <= |s| && UncommentedFrom(s, i, true) == (v, stop) && stop >= |s|
    ensures ArgsFrom(s, i) == WithoutEmptyLast([v])
  {
    if i < |s| {
      NextArgument(s, i);
    } else {
      AtEnd(s, i, Scan("", i, i, false), true);
    }
  }

  lemma {:induction false} InnerArgument(s: string, i: nat, v: string, e: nat)
    requires i <= |s| && UncommentedFrom(s, i, true) == (v, e) && e < |s|
    ensures ArgsFrom(s, i) == [v] + ArgsFrom(s, e + 1)
  {
    StopsLater(s, i);
    NextArgument(s, i);
  }

  /** A text laid out as arguments is split into their values; an empty last one is dropped. */
  lemma {:induction false} SplitAsLaidOut(s: string, i: nat, args: seq<Arg>)
    requires ArgsAt(s, i, args) && i <= |s|
    ensures ArgsFrom(s, i) == WithoutEmptyLast(Values(s, i, args))
    decreases |args|
  {
    var e, v := i + ArgLength(args[0]), Spaced(Pieces(s, i, args[0].parts));
    CommentsRemoved(s, i, args[0].parts, args[0].last, e, true);
    if |args| == 1 {
      assert Values(s, e + 1, args[1..]) == [];
      LastArgument(s, i, v, UncommentedFrom(s, i, true).1);
    } else {
      SplitAsLaidOut(s, e + 1, args[1..]);
      InnerArgument(s, i, v, e);
      MoreValues(v, Values(s, e + 1, args[1..]));
    }
  }

  // ----- the same stretch in another text

  /** From k to m, text x reads as s does d positions further on. */
  predicate Same(s: string, x: string, k: nat, m: nat, d: int) {
    && k <= m <= |x| && 0 <= k + d && m + d <= |s|
    && forall p {:trigger x[p]} :: k <= p < m ==> x[p] == s[p + d]
  }

  lemma {:induction false} SameWithin(s: string, x: string, k: nat, m: nat, d: int, k': nat, m': nat)
    requires Same(s, x, k, m, d) && k <= k' <= m' <= m
    ensures Same(s, x, k', m', d)
  {
  }

  /** What follows position m in x does not begin with that character unless it does so in s. */
  predicate NoNew(s: string, x: string, m: nat, d: int, c: char) {
    m < |x| && x[m] == c ==> 0 <= m + d < |s| && s[m + d] == c
  }

  lemma {:induction false} NoteMoves(s: string, x: string, k: nat, m: nat, d: int)
    requires k + d >= 0 && m + d >= 0 && NoteAt(s, k + d, m + d)
    requires Same(s, x, k, m, d) && NoNew(s, x, m, d, '\n')
    ensures NoteAt(x, k, m)
  {
    if BlockAt(s, k + d, m + d) {
      assert BlockAt(x, k, m);
    } else {
      var n: nat :| LineAt(s, k + d, n, m + d);
      assert LineAt(x, k, n - d, m);
    }
  }

  lemma {:induction false} BitMoves(s: string, x: string, k: nat, d: int, b: AngleBit)
    requires k + d >= 0 && BitAt(s, k + d, b) && Same(s, x, k, k + BitLength(b) + 1, d)
    ensures BitAt(x, k, b)
  {
    if b.Aside? {
      NoteMoves(s, x, k, k + b.length, d);
    } else {
      assert x[k] == s[k + d] && x[k + 1] == s[k + 1 + d];
    }
  }

  lemma {:induction false} BitsMove(s: string, x: string, k: nat, d: int, bits: seq<AngleBit>)
    requires k + d >= 0 && BitsAt(s, k + d, bits) && Same(s, x, k, k + BitsLength(bits) + 1, d)
    ensures BitsAt(x, k, bits)
    decreases |bits|
  {
    if bits != [] {
      var j := k + BitLength(bits[0]);
      assert j + d == k + d + BitLength(bits[0]) && BitsLength(bits) == BitLength(bits[0]) + BitsLength(bits[1..]);
      SameWithin(s, x, k, k + BitsLength(bits) + 1, d, k, j + 1);
      SameWithin(s, x, k, k + BitsLength(bits) + 1, d, j, j + BitsLength(bits[1..]) + 1);
      BitMoves(s, x, k, d, bits[0]);
      BitsMove(s, x, j, d, bits[1..]);
    }
  }

  lemma {:induction false} AngleMoves(s: string, x: string, k: nat, d: int, bits: seq<AngleBit>)
    requires k + d >= 0 && AngleAt(s, k + d, bits) && Same(s, x, k, k + BitsLength(bits) + 3, d)
    ensures AngleAt(x, k, bits)
  {
    BitsMove(s, x, k + 2, d, bits);
    var j := k + 2 + BitsLength(bits);
    assert x[k] == s[k + d] && x[k + 1] == s[k + 1 + d] && x[j] == s[j + d];
  }

  lemma {:induction false} NumberMoves(s: string, x: string, a: nat, b: nat, d: int, base: nat)
    requires a + d >= 0 && a <= b && Same(s, x, a, b, d)
    ensures NumberIn(x, a, b, base) == NumberIn(s, a + d, b + d, base)
    decreases b
  {
    if a < b {
      assert x[b - 1] == s[b - 1 + d];
      NumberMoves(s, x, a, b - 1, d, base);
    }
  }

  lemma {:induction false} InsideMoves(s: string, x: string, k: nat, d: int, b: QuoteBit)
    requires k + d >= 0 && InsideAt(s, k + d, b) && Same(s, x, k, k + InsideLength(b) + 1, d)
    ensures InsideAt(x, k, b)
  {
    var j := k + InsideLength(b);
    assert x[k] == s[k + d] && x[j] == s[j + d];
    match b
    case Char(_) =>
    case Slash(_) =>
      assert x[k + 1] == s[k + 1 + d];
    case Octal(_, _) =>
      NumberMoves(s, x, k + 1, j, d, 8);
    case Hex(_, _) =>
      assert x[k + 1] == s[k + 1 + d];
      NumberMoves(s, x, k + 2, j, d, 16);
    case Break(_) =>
      assert x[k + 1] == s[k + 1 + d];
    case Pairs(bits) =>
      AngleMoves(s, x, k, d, bits);
  }

  lemma {:induction false} QuoteMoves(s: string, x: string, k: nat, d: int, inside: seq<QuoteBit>)
    requires k + d >= 0 && QuoteAt(s, k + d, inside) && Same(s, x, k, k + QuoteLength(inside) + 1, d)
    ensures QuoteAt(x, k, inside)
    decreases |inside|
  {
    if inside != [] {
      var j := k + InsideLength(inside[0]);
      assert j + d == k + d + InsideLength(inside[0]);
      assert QuoteLength(inside) == InsideLength(inside[0]) + QuoteLength(inside[1..]);
      SameWithin(s, x, k, k + QuoteLength(inside) + 1, d, k, j + 1);
      SameWithin(s, x, k, k + QuoteLength(inside) + 1, d, j, j + QuoteLength(inside[1..]) + 1);
      InsideMoves(s, x, k, d, inside[0]);
      QuoteMoves(s, x, j, d, inside[1..]);
    }
  }

  /** Nothing follows that would make a comment or an escape of the last character. */
  predicate Calm(s: string, x: string, m: nat, d: int) {
    NoNew(s, x, m, d, '\n') && NoNew(s, x, m, d, '/') && NoNew(s, x, m, d, '*') && NoNew(s, x, m, d, '<')
  }

  lemma {:induction false} StretchMoves(s: string, x: string, k: nat, m: nat, d: int)
    requires k + d >= 0 && Same(s, x, k, m, d)
    ensures x[k..m] == s[k + d..m + d]
  {
  }

  lemma {:induction false} QuotedMoves(s: string, x: string, k: nat, d: int, t: Token, commas: bool)
    requires k + d >= 0 && TokenFits(s, k + d, t, commas) && (t.Single? || t.Double?)
    requires Same(s, x, k, k + TokenLength(t), d)
    ensures TokenFits(x, k, t, commas)
  {
    var j := k + TokenLength(t);
    assert x[k] == s[k + d] && x[j - 1] == s[j - 1 + d];
    match t
    case Single(_) =>
      StretchMoves(s, x, k + 1, j - 1, d);
    case Double(inside) =>
      QuoteMoves(s, x, k + 1, d, inside);
  }

  lemma {:induction false} PlainMoves(s: string, x: string, k: nat, d: int, c: char, commas: bool)
    requires k + d >= 0 && TokenFits(s, k + d, Plain(c), commas)
    requires Same(s, x, k, k + 1, d) && Calm(s, x, k + 1, d)
    ensures TokenFits(x, k, Plain(c), commas)
  {
    assert x[k] == s[k + d];
  }

  lemma {:induction false} TokenMoves(s: string, x: string, k: nat, d: int, t: Token, commas: bool)
    requires k + d >= 0 && TokenAt(s, k + d, t, commas) && !t.Open?
    requires Same(s, x, k, k + TokenLength(t), d) && Calm(s, x, k + TokenLength(t), d)
    ensures TokenAt(x, k, t, commas)
  {
    assert TokenFits(s, k + d, t, commas);
    match t
    case Blank(_) =>
      assert x[k] == s[k + d];
    case Note(length) =>
      NoteMoves(s, x, k, k + length, d);
    case Plain(c) =>
      PlainMoves(s, x, k, d, c, commas);
    case Single(_) =>
      QuotedMoves(s, x, k, d, t, commas);
    case Double(_) =>
      QuotedMoves(s, x, k, d, t, commas);
    case Angle(bits) =>
      AngleMoves(s, x, k, d, bits);
  }

  predicate NoneOpen(ts: seq<Token>) {
    ts == [] || (!ts[0].Open? && NoneOpen(ts[1..]))
  }

  lemma {:induction false} TokensMove(s: string, x: string, k: nat, d: int, ts: seq<Token>, commas: bool)
    requires k + d >= 0 && TokensAt(s, k + d, ts, commas) && NoneOpen(ts)
    requires Same(s, x, k, k + Length(ts), d) && Calm(s, x, k + Length(ts), d)
    ensures TokensAt(x, k, ts, commas)
    decreases |ts|
  {
    if ts != [] {
      var j := k + TokenLength(ts[0]);
      assert j + d == k + d + TokenLength(ts[0]) && Length(ts) == TokenLength(ts[0]) + Length(ts[1..]);
      SameWithin(s, x, k, k + Length(ts), d, k, j);
      SameWithin(s, x, k, k + Length(ts), d, j, j + Length(ts[1..]));
      assert Calm(s, x, j, d);
      TokenMoves(s, x, k, d, ts[0], commas);
      TokensMove(s, x, j, d, ts[1..], commas);
    }
  }

  // ----- joining and splitting

  /** A text that is one argument as it stands: one piece. */
  ghost predicate IsArgument(t: string) {
    exists ts :: IsPiece(ts) && NoneOpen(ts) && Length(ts) == |t| && TokensAt(t, 0, ts, true)
  }

  function Blanks(n: nat): seq<Token> {
    if n == 0 then [] else [Blank(' ')] + Blanks(n - 1)
  }

  lemma {:induction false} BlanksAt(x: string, i: nat, n: nat, commas: bool)
    requires i + n <= |x| && forall p :: i <= p < i + n ==> x[p] == ' '
    ensures TokensAt(x, i, Blanks(n), commas) && IsGap(Blanks(n)) && Length(Blanks(n)) == n
    decreases n
  {
    if n > 0 {
      BlanksAt(x, i + 1, n - 1, commas);
      assert TokenFits(x, i, Blank(' '), commas);
    }
  }

  lemma {:induction false} ArgumentLies(x: string, k: nat, j: nat, r: nat) returns (part: Part)
    requires k <= j <= r <= |x| && IsArgument(x[j..r]) && (r < |x| ==> x[r] == ' ' || x[r] == ',')
    requires forall p :: k <= p < j ==> x[p] == ' '
    ensures PartAt(x, k, part, true, true) && j < r
    ensures k + Length(part.gap) == j && k + PartLength(part) == r
  {
    var t := x[j..r];
    var ts :| IsPiece(ts) && NoneOpen(ts) && Length(ts) == |t| && TokensAt(t, 0, ts, true);
    part := Part(Blanks(j - k), ts);
    BlanksAt(x, k, j - k, true);
    TokensMove(t, x, j, 0 - j, ts, true);
    PieceNotEmpty(t, ts);
  }

  /** An argument at j..r, with blanks before and after it and then the end or a comma, is what
      the scan finds. */
  lemma {:induction false} ArgumentScanned(x: string, k: nat, j: nat, r: nat, e: nat)
    requires k <= j <= r <= e <= |x| && IsArgument(x[j..r]) && (e == |x| || x[e] == ',')
    requires forall p :: k <= p < j || r <= p < e ==> x[p] == ' '
    ensures UncommentedFrom(x, k, true) == (x[j..r], e) && j < r
  {
    var part := ArgumentLies(x, k, j, r);
    BlanksAt(x, r, e - r, true);
    OneLaidOut(x, k, part, Blanks(e - r), e, true);
    CommentsRemoved(x, k, [part], Blanks(e - r), e, true);
  }

  lemma {:induction false} PieceNotEmpty(t: string, ts: seq<Token>)
    requires IsPiece(ts) && TokensAt(t, 0, ts, true)
    ensures Length(ts) > 0
  {
    assert TokenFits(t, 0, ts[0], true);
  }

  lemma {:induction false} OneLaidOut(x: string, k: nat, part: Part, last: seq<Token>, e: nat, commas: bool)
    requires PartAt(x, k, part, true, commas) && LastAt(x, k + PartLength(part), last, e, commas)
    ensures LaidOut(x, k, [part], last, e, commas)
    ensures Pieces(x, k, [part]) == [Sub(x, k + Length(part.gap), k + PartLength(part))]
  {
    var none := [part][1..];
    assert none == [] && PartsAt(x, k + PartLength(part), none, false, commas) && PartsLength(none) == 0;
    assert PartsLength([part]) == PartLength(part);
  }

  /** Nothing but blanks from position i on, which is no argument. */
  lemma {:induction false} BlankRest(x: string, i: nat)
    requires i <= |x| && forall p :: i <= p < |x| ==> x[p] == ' '
    ensures ArgsFrom(x, i) == []
  {
    BlanksAt(x, i, |x| - i, true);
    CommentsRemoved(x, i, [], Blanks(|x| - i), |x|, true);
    LastArgument(x, i, "", UncommentedFrom(x, i, true).1);
  }

  /** Where joined texts lie. */
  ghost predicate JoinedAt(x: string, k: nat, conf: seq<string>, e: nat)
    decreases |conf|
  {
    && conf != []
    && var r := k + |conf[0]|;
       && r <= |x| && x[k..r] == conf[0]
       && if |conf| == 1 then r == e
          else r + 1 < |x| && x[r] == ',' && x[r + 1] == ' ' && JoinedAt(x, r + 2, conf[1..], e)
  }

  /** The text at k is u. */
  predicate ReadsText(x: string, k: nat, u: string) {
    k + |u| <= |x| && x[k..k + |u|] == u
  }

  lemma {:induction false} ReadsBoth(x: string, k: nat, u: string, q: string, v: string)
    requires ReadsText(x, k, u) && u == q + v
    ensures ReadsText(x, k, q) && ReadsText(x, k + |q|, v)
  {
    assert x[k..k + |q|] == u[..|q|];
    assert x[k + |q|..k + |u|] == u[|q|..];
  }

  lemma {:induction false} JoinedLies(x: string, k: nat, conf: seq<string>, u: string)
    requires conf != [] && u == Joined(conf) && ReadsText(x, k, u)
    ensures JoinedAt(x, k, conf, k + |u|)
    decreases |conf|
  {
    if |conf| > 1 {
      var v := Joined(conf[1..]);
      var r := FirstReads(x, k, u, conf[0], v);
      JoinedLies(x, r + 2, conf[1..], v);
    }
  }

  lemma {:induction false} FirstReads(x: string, k: nat, u: string, q: string, v: string) returns (r: nat)
    requires u == q + ", " + v && ReadsText(x, k, u)
    ensures r == k + |q| && r + 2 + |v| == k + |u| <= |x|
    ensures x[k..r] == q && x[r] == ',' && x[r + 1] == ' ' && ReadsText(x, r + 2, v)
  {
    r := k + |q|;
    assert u == q + (", " + v);
    ReadsBoth(x, k, u, q, ", " + v);
    ReadsBoth(x, r, ", " + v, ", ", v);
    assert x[r] == x[r..r + 2][0] && x[r + 1] == x[r..r + 2][1];
  }

  /** From e on: n spaces, and perhaps a comma and more spaces. */
  predicate TailAt(x: string, e: nat, n: nat, comma: bool) {
    && e + n <= |x| && (forall p :: e <= p < |x| && p != e + n ==> x[p] == ' ')
    && if comma then e + n < |x| && x[e + n] == ',' else e + n == |x|
  }

  /** Splitting from k on gives these; what splitting does is looked at only where it is mentioned. */
  ghost predicate SplitsTo(x: string, k: nat, conf: seq<string>) {
    forall i: nat {:trigger ArgsFrom(x, i)} :: i == k ==> ArgsFrom(x, i) == conf
  }

  lemma {:induction false} LastJoined(x: string, k: nat, j: nat, r: nat, n: nat, comma: bool)
    requires k <= j <= r <= |x| && IsArgument(x[j..r]) && TailAt(x, r, n, comma)
    requires forall p :: k <= p < j ==> x[p] == ' '
    ensures SplitsTo(x, k, [x[j..r]])
  {
    ArgumentScanned(x, k, j, r, r + n);
    ArgumentFound(x, k, x[j..r], r + n);
    if comma {
      BlankRest(x, r + n + 1);
    }
  }

  lemma {:induction false} NextJoined(x: string, k: nat, j: nat, r: nat, rest: seq<string>)
    requires k <= j <= r < |x| && IsArgument(x[j..r]) && x[r] == ',' && forall p :: k <= p < j ==> x[p] == ' '
    requires SplitsTo(x, r + 1, rest)
    ensures SplitsTo(x, k, [x[j..r]] + rest)
  {
    ArgumentScanned(x, k, j, r, r);
    ArgumentFound(x, k, x[j..r], r);
  }

  lemma {:induction false} JoinedFrom(x: string, k: nat, j: nat, conf: seq<string>, e: nat, n: nat, comma: bool)
    requires (forall i :: 0 <= i < |conf| ==> IsArgument(conf[i])) && JoinedAt(x, j, conf, e) && TailAt(x, e, n, comma)
    requires k <= j <= |x| && forall p :: k <= p < j ==> x[p] == ' '
    ensures SplitsTo(x, k, conf)
    decreases |conf|
  {
    var r := j + |conf[0]|;
    if |conf| == 1 {
      LastJoined(x, k, j, r, n, comma);
      assert [conf[0]] == conf;
    } else {
      JoinedFrom(x, r + 1, r + 2, conf[1..], e, n, comma);
      NextJoined(x, k, j, r, conf[1..]);
      assert [conf[0]] + conf[1..] == conf;
    }
  }

  /** Splitting undoes joining for arguments of any kind; blanks or a comma at the end add no
      argument. */
  lemma {:induction false} JoinedSplits(x: string, conf: seq<string>, n: nat, comma: bool)
    requires conf != [] && forall i :: 0 <= i < |conf| ==> IsArgument(conf[i])
    requires ReadsText(x, 0, Joined(conf)) && TailAt(x, |Joined(conf)|, n, comma)
    ensures ArgsFrom(x, 0) == conf
  {
    JoinedLies(x, 0, conf, Joined(conf));
    JoinedFrom(x, 0, 0, conf, |Joined(conf)|, n, comma);
  }

  /** The special case without anything at the end. */
  lemma {:induction false} SplitUndoesJoin(conf: seq<string>)
    requires forall i :: 0 <= i < |conf| ==> IsArgument(conf[i])
    ensures ArgsFrom(Joined(conf), 0) == conf
  {
    var x := Joined(conf);
    if conf != [] {
      assert x[0..|x|] == x;
      JoinedSplits(x, conf, 0, false);
    }
  }

  // ----- texts that are arguments

  /** No quotes, no commas, no comments and no byte strings: each character stands for itself. */
  predicate IsPlain(t: string) {
    forall i :: 0 <= i < |t| ==>
      && t[i] != '\'' && t[i] != '\"' && t[i] != ',' && !CommentAt(t, i)
      && (t[i] == '\\' ==> i + 1 == |t| || t[i + 1] != '<')
  }

  function CharToken(c: char): Token {
    if IsSpace(c) then Blank(c) else Plain(c)
  }

  function CharTokens(t: string, i: nat, j: nat): seq<Token>
    requires j <= |t|
    decreases j - i
  {
    if i >= j then [] else [CharToken(t[i])] + CharTokens(t, i + 1, j)
  }

  lemma {:induction false} CharsAt(t: string, i: nat, j: nat, commas: bool)
    requires IsPlain(t) && i <= j <= |t|
    ensures TokensAt(t, i, CharTokens(t, i, j), commas) && Length(CharTokens(t, i, j)) == j - i
    ensures (forall p :: i <= p < j ==> IsSpace(t[p])) ==> IsGap(CharTokens(t, i, j))
    ensures i < j && !IsSpace(t[j - 1]) ==> EndsInItem(CharTokens(t, i, j))
    ensures NoneOpen(CharTokens(t, i, j))
    decreases j - i
  {
    if i < j {
      CharsAt(t, i + 1, j, commas);
      assert TokenFits(t, i, CharToken(t[i]), commas);
    }
  }

  /** Plain text that neither starts nor ends with a blank is an argument, blanks inside and all. */
  lemma {:induction false} PlainIsArgument(t: string)
    requires t != "" && IsPlain(t) && !IsSpace(t[0]) && !IsSpace(t[|t| - 1])
    ensures IsArgument(t)
  {
    CharsAt(t, 0, |t|, true);
  }

  /** Plain text loses the blanks at both ends and keeps those inside. */
  lemma {:induction false} PlainTrimmed(x: string, a: nat, b: nat, commas: bool)
    requires IsPlain(x) && a < b <= |x| && !IsSpace(x[a]) && !IsSpace(x[b - 1])
    requires forall p :: 0 <= p < a || b <= p < |x| ==> IsSpace(x[p])
    ensures UncommentedFrom(x, 0, commas) == (x[a..b], |x|)
  {
    CharsAt(x, 0, a, commas);
    CharsAt(x, a, b, commas);
    CharsAt(x, b, |x|, commas);
    var part := Part(CharTokens(x, 0, a), CharTokens(x, a, b));
    var last := CharTokens(x, b, |x|);
    OneLaidOut(x, 0, part, last, |x|, commas);
    CommentsRemoved(x, 0, [part], last, |x|, commas);
  }

  /** Of blanks alone nothing is left. */
  lemma {:induction false} BlanksVanish(x: string, commas: bool)
    requires forall p :: 0 <= p < |x| ==> IsSpace(x[p])
    ensures UncommentedFrom(x, 0, commas) == ("", |x|)
  {
    assert IsPlain(x);
    CharsAt(x, 0, |x|, commas);
    CommentsRemoved(x, 0, [], CharTokens(x, 0, |x|), |x|, commas);
  }

  /** So is a quoted part or a byte string alone, with commas and comment marks in it. */
  lemma {:induction false} ItemIsArgument(t: string, item: Token)
    requires TokenAt(t, 0, item, true) && IsItem(item) && !item.Open? && TokenLength(item) == |t|
    ensures IsArgument(t)
  {
    var ts, none: seq<Token> := [item], [];
    assert Length(none) == 0 && NoneOpen(none) && TokensAt(t, |t|, none, true);
    assert ts[1..] == none;
    assert IsPiece(ts) && TokensAt(t, 0, ts, true);
  }

  /** The example that the source gives. */
  lemma {:induction false} ThreeArguments()
    ensures ArgsFrom("a, b, c", 0) == ["a", "b", "c"]
  {
    PlainIsArgument("a");
    PlainIsArgument("b");
    PlainIsArgument("c");
    assert Joined(["b", "c"]) == "b, c" by {
      assert ["b", "c"][1..] == ["c"];
    }
    assert Joined(["a", "b", "c"]) == "a, b, c" by {
      assert ["a", "b", "c"][1..] == ["b", "c"];
    }
    SplitUndoesJoin(["a", "b", "c"]);
  }
}
