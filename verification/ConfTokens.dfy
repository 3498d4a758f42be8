/** Configuration text described by what was written: blanks, comments, quoted parts, byte
    strings between "\<" and ">", and plain characters; and where the scanners see each end. */
module ConfTokens {
  import opened ConfInteger
  import opened ConfText

  // ----- what can be written

  /** Between "\<" and ">": a character, or a comment of some length. */
  datatype AngleBit =
    | Raw(c: char)
    | Aside(length: nat)

  /** Between double quotes: a character, a backslash and a character, a backslash and octal
      digits, "\x" and hexadecimal digits, a backslash and a line end, or a byte string. */
  datatype QuoteBit =
    | Char(c: char)
    | Slash(c: char)
    | Octal(digits: nat, value: nat)
    | Hex(digits: nat, value: nat)
    | Break(length: nat)
    | Pairs(bits: seq<AngleBit>)

  datatype Token =
    | Blank(c: char)
    | Note(length: nat)
    | Plain(c: char)
    | Single(body: string)
    | Double(inside: seq<QuoteBit>)
    | Angle(bits: seq<AngleBit>)
    | Open(length: nat)

  function BitLength(b: AngleBit): nat {
    match b
    case Raw(_) => 1
    case Aside(length) => length
  }

  function BitsLength(bits: seq<AngleBit>): nat {
    if bits == [] then 0 else BitLength(bits[0]) + BitsLength(bits[1..])
  }

  function InsideLength(b: QuoteBit): nat {
    match b
    case Char(_) => 1
    case Slash(_) => 2
    case Octal(digits, _) => 1 + digits
    case Hex(digits, _) => 2 + digits
    case Break(length) => 1 + length
    case Pairs(bits) => BitsLength(bits) + 3
  }

  function QuoteLength(inside: seq<QuoteBit>): nat {
    if inside == [] then 0 else InsideLength(inside[0]) + QuoteLength(inside[1..])
  }

  function TokenLength(t: Token): nat {
    match t
    case Blank(_) => 1
    case Note(length) => length
    case Plain(_) => 1
    case Single(body) => |body| + 2
    case Double(inside) => QuoteLength(inside) + 2
    case Angle(bits) => BitsLength(bits) + 3
    case Open(length) => length
  }

  function Length(ts: seq<Token>): nat {
    if ts == [] then 0 else TokenLength(ts[0]) + Length(ts[1..])
  }

  // ----- where it stands in a text

  predicate IsEol(c: char) {
    c == '\n' || c == '\r'
  }

  /** A line end: one character, or a carriage return and a newline. */
  predicate EolAt(s: string, i: nat, j: nat) {
    && i < j <= |s|
    && if j == i + 2 then s[i] == '\r' && s[i + 1] == '\n'
       else j == i + 1 && IsEol(s[i]) && !(s[i] == '\r' && j < |s| && s[j] == '\n')
  }

  /** "//", characters of one line, and its end at m. */
  predicate LineAt(s: string, i: nat, m: nat, j: nat) {
    i + 2 <= m < j <= |s| && s[i] == '/' && s[i + 1] == '/' && EolAt(s, m, j)
    && forall p :: i + 2 <= p < m ==> !IsEol(s[p])
  }

  /** From one block mark to the next. */
  predicate BlockAt(s: string, i: nat, j: nat) {
    i + 4 <= j <= |s| && s[i] == '/' && s[i + 1] == '*' && s[j - 2] == '*' && s[j - 1] == '/'
    && forall p {:trigger s[p]} :: i + 2 <= p < j - 2 ==> s[p] != '*' || s[p + 1] != '/'
  }

  ghost predicate NoteAt(s: string, i: nat, j: nat) {
    BlockAt(s, i, j) || exists m: nat :: LineAt(s, i, m, j)
  }

  ghost predicate BitAt(s: string, i: nat, b: AngleBit) {
    i < |s| && match b
               case Raw(c) => s[i] == c && c != '>' && !CommentAt(s, i)
               case Aside(length) => NoteAt(s, i, i + length)
  }

  ghost predicate BitsAt(s: string, i: nat, bits: seq<AngleBit>)
    decreases |bits|
  {
    bits == [] || (BitAt(s, i, bits[0]) && BitsAt(s, i + BitLength(bits[0]), bits[1..]))
  }

  ghost predicate AngleAt(s: string, i: nat, bits: seq<AngleBit>) {
    var j := i + 2 + BitsLength(bits);
    j < |s| && s[i] == '\\' && s[i + 1] == '<' && BitsAt(s, i + 2, bits) && s[j] == '>'
  }

  ghost predicate InsideAt(s: string, i: nat, b: QuoteBit) {
    var j := i + InsideLength(b);
    j <= |s| && match b
                case Char(c) => s[i] == c && c != '\"' && c != '\\'
                case Slash(c) =>
                  s[i] == '\\' && s[i + 1] == c && !IsEol(c) && c != 'x' && c != '<' && !IsOctal(c)
                case Octal(digits, value) =>
                  && 1 <= digits <= 3 && s[i] == '\\' && (forall p :: i < p < j ==> IsOctal(s[p]))
                  && (digits < 3 && j < |s| ==> !IsOctal(s[j])) && value == NumberIn(s, i + 1, j, 8)
                case Hex(digits, value) =>
                  && s[i] == '\\' && s[i + 1] == 'x' && (forall p :: i + 1 < p < j ==> HexValue(s[p]) >= 0)
                  && (j < |s| ==> HexValue(s[j]) < 0) && value == NumberIn(s, i + 2, j, 16)
                case Break(length) => s[i] == '\\' && EolAt(s, i + 1, j)
                case Pairs(bits) => AngleAt(s, i, bits)
  }

  ghost predicate QuoteAt(s: string, i: nat, inside: seq<QuoteBit>)
    decreases |inside|
  {
    inside == [] || (InsideAt(s, i, inside[0]) && QuoteAt(s, i + InsideLength(inside[0]), inside[1..]))
  }

  /** A quoted part or a byte string that nothing finishes; a backslash may end the text. */
  ghost predicate OpenAt(s: string, i: nat) {
    || (i < |s| && s[i] == '\'' && forall p :: i < p < |s| ==> s[p] != '\'')
    || (i < |s| && s[i] == '\"' && exists inside :: OpenInside(s, i, inside))
    || (i + 1 < |s| && s[i] == '\\' && s[i + 1] == '<'
        && exists bits :: BitsAt(s, i + 2, bits) && i + 2 + BitsLength(bits) == |s|)
  }

  ghost predicate OpenInside(s: string, i: nat, inside: seq<QuoteBit>) {
    var k := i + 1 + QuoteLength(inside);
    QuoteAt(s, i + 1, inside) && (k == |s| || (k + 1 == |s| && s[k] == '\\'))
  }

  /** Commas end an argument where arguments are told apart. */
  ghost predicate TokenFits(s: string, i: nat, t: Token, commas: bool) {
    var j := i + TokenLength(t);
    j <= |s| && match t
                case Blank(c) => s[i] == c && IsSpace(c)
                case Note(_) => NoteAt(s, i, j)
                case Plain(c) =>
                  && s[i] == c && !IsSpace(c) && c != '\'' && c != '\"' && !(commas && c == ',')
                  && !CommentAt(s, i) && !(c == '\\' && j < |s| && s[j] == '<')
                case Single(body) => s[i] == '\'' && s[i + 1..j - 1] == body && '\'' !in body && s[j - 1] == '\''
                case Double(inside) => s[i] == '\"' && QuoteAt(s, i + 1, inside) && s[j - 1] == '\"'
                case Angle(bits) => AngleAt(s, i, bits)
                case Open(_) => j == |s| && OpenAt(s, i)
  }

  /** The same; what it says is looked at only where the other is mentioned. */
  ghost predicate TokenAt(s: string, i: nat, t: Token, commas: bool) {
    forall u {:trigger TokenFits(s, i, u, commas)} :: u == t ==> TokenFits(s, i, u, commas)
  }

  ghost predicate TokensAt(s: string, i: nat, ts: seq<Token>, commas: bool)
    decreases |ts|
  {
    ts == [] || (TokenAt(s, i, ts[0], commas) && TokensAt(s, i + TokenLength(ts[0]), ts[1..], commas))
  }

  // ----- where the scanners see the ends

  lemma {:induction false} LineFound(s: string, i: nat, m: nat, j: nat)
    requires i <= m < j <= |s| && EolAt(s, m, j) && forall p :: i <= p < m ==> !IsEol(s[p])
    ensures LineCommentEnd(s, i) == j
    decreases m - i
  {
    if i < m {
      LineFound(s, i + 1, m, j);
    }
  }

  lemma {:induction false} BlockFound(s: string, i: nat, j: nat)
    requires i + 2 <= j <= |s| && s[j - 2] == '*' && s[j - 1] == '/'
    requires forall p {:trigger s[p]} :: i <= p < j - 2 ==> s[p] != '*' || s[p + 1] != '/'
    ensures BlockCommentEnd(s, i) == j
    decreases j - i
  {
    if i < j - 2 {
      BlockFound(s, i + 1, j);
    }
  }

  lemma {:induction false} NoteFound(s: string, i: nat, j: nat)
    requires NoteAt(s, i, j)
    ensures CommentAt(s, i) && CommentEnd(s, i) == j && !IsSpace(s[i])
  {
    if BlockAt(s, i, j) {
      BlockFound(s, i + 2, j);
    } else {
      var m: nat :| LineAt(s, i, m, j);
      LineFound(s, i + 2, m, j);
    }
  }

  lemma {:induction false} BitFound(s: string, i: nat, b: AngleBit)
    requires BitAt(s, i, b)
    ensures AngleEnd(s, i) == AngleEnd(s, i + BitLength(b))
  {
    if b.Aside? {
      NoteFound(s, i, i + b.length);
      assert s[i] == '/';
    }
  }

  lemma {:induction false} BitsFound(s: string, i: nat, bits: seq<AngleBit>)
    requires BitsAt(s, i, bits) && i + BitsLength(bits) < |s| && s[i + BitsLength(bits)] == '>'
    ensures AngleEnd(s, i) == i + BitsLength(bits) + 1
    decreases |bits|
  {
    if bits != [] {
      BitFound(s, i, bits[0]);
      BitsFound(s, i + BitLength(bits[0]), bits[1..]);
    }
  }

  lemma {:induction false} AngleFound(s: string, i: nat, bits: seq<AngleBit>)
    requires AngleAt(s, i, bits)
    ensures BackslashEnd(s, i) == i + BitsLength(bits) + 3
  {
    BitsFound(s, i + 2, bits);
  }

  lemma {:induction false} PlainInQuotes(s: string, i: nat, j: nat)
    requires i <= j <= |s| && forall p :: i <= p < j ==> s[p] != '\\' && s[p] != '\"'
    ensures DoubleQuoteEnd(s, i) == DoubleQuoteEnd(s, j)
    decreases j - i
  {
    if i < j {
      PlainInQuotes(s, i + 1, j);
    }
  }

  lemma {:induction false} InsideFound(s: string, i: nat, b: QuoteBit)
    requires InsideAt(s, i, b)
    ensures DoubleQuoteEnd(s, i) == DoubleQuoteEnd(s, i + InsideLength(b))
  {
    var j := i + InsideLength(b);
    match b
    case Char(_) =>
    case Slash(_) =>
    case Octal(_, _) =>
      assert IsOctal(s[i + 1]);
      PlainInQuotes(s, i + 2, j);
    case Hex(_, _) =>
      PlainInQuotes(s, i + 2, j);
    case Break(_) =>
      assert BackslashEnd(s, i) == j;
    case Pairs(bits) =>
      AngleFound(s, i, bits);
  }

  lemma {:induction false} QuoteFound(s: string, i: nat, inside: seq<QuoteBit>)
    requires QuoteAt(s, i, inside) && i + QuoteLength(inside) < |s| && s[i + QuoteLength(inside)] == '\"'
    ensures DoubleQuoteEnd(s, i) == i + QuoteLength(inside) + 1
    decreases |inside|
  {
    if inside != [] {
      InsideFound(s, i, inside[0]);
      QuoteFound(s, i + InsideLength(inside[0]), inside[1..]);
    }
  }

  lemma {:induction false} SingleFound(s: string, i: nat, j: nat)
    requires i <= j < |s| && s[j] == '\'' && forall p :: i <= p < j ==> s[p] != '\''
    ensures SingleQuoteEnd(s, i) == j + 1
    decreases j - i
  {
    if i < j {
      SingleFound(s, i + 1, j);
    }
  }

  lemma {:induction false} SingleNeverEnds(s: string, i: nat)
    requires i <= |s| && forall p :: i <= p < |s| ==> s[p] != '\''
    ensures SingleQuoteEnd(s, i) == |s|
    decreases |s| - i
  {
    if i < |s| {
      SingleNeverEnds(s, i + 1);
    }
  }

  lemma {:induction false} QuoteNeverEnds(s: string, i: nat, inside: seq<QuoteBit>)
    requires QuoteAt(s, i, inside)
    requires var k := i + QuoteLength(inside); k == |s| || (k + 1 == |s| && s[k] == '\\')
    ensures DoubleQuoteEnd(s, i) == |s|
    decreases |inside|
  {
    if inside != [] {
      InsideFound(s, i, inside[0]);
      QuoteNeverEnds(s, i + InsideLength(inside[0]), inside[1..]);
    }
  }

  lemma {:induction false} AngleNeverEnds(s: string, i: nat, bits: seq<AngleBit>)
    requires BitsAt(s, i, bits) && i + BitsLength(bits) == |s|
    ensures AngleEnd(s, i) == |s|
    decreases |bits|
  {
    if bits != [] {
      BitFound(s, i, bits[0]);
      AngleNeverEnds(s, i + BitLength(bits[0]), bits[1..]);
    }
  }

  lemma {:induction false} OpenFound(s: string, i: nat)
    requires OpenAt(s, i)
    ensures i < |s| && !IsSpace(s[i]) && !CommentAt(s, i) && s[i] != ',' && ItemEnd(s, i) == |s|
  {
    if s[i] == '\'' {
      SingleNeverEnds(s, i + 1);
    } else if s[i] == '\"' {
      var inside :| OpenInside(s, i, inside);
      QuoteNeverEnds(s, i + 1, inside);
    } else {
      var bits :| BitsAt(s, i + 2, bits) && i + 2 + BitsLength(bits) == |s|;
      AngleNeverEnds(s, i + 2, bits);
    }
  }

  predicate IsItem(t: Token) {
    !t.Blank? && !t.Note?
  }

  /** The scan sees an item as one. */
  lemma {:induction false} ItemFound(s: string, i: nat, t: Token, commas: bool)
    requires TokenAt(s, i, t, commas) && IsItem(t)
    ensures i < |s| && !IsSpace(s[i]) && !CommentAt(s, i) && !(commas && s[i] == ',')
    ensures ItemEnd(s, i) == i + TokenLength(t)
  {
    assert TokenFits(s, i, t, commas);
    match t
    case Plain(_) =>
    case Single(body) =>
      var j := i + TokenLength(t);
      forall p | i + 1 <= p < j - 1
        ensures s[p] != '\''
      {
        assert s[p] == body[p - i - 1];
      }
      SingleFound(s, i + 1, j - 1);
    case Double(inside) =>
      QuoteFound(s, i + 1, inside);
    case Angle(bits) =>
      AngleFound(s, i, bits);
    case Open(_) =>
      OpenFound(s, i);
  }

  // ----- gaps, and the pieces between them

  /** Blanks and comments. */
  predicate IsGap(ts: seq<Token>) {
    ts == [] || (!IsItem(ts[0]) && IsGap(ts[1..]))
  }

  predicate HasNote(ts: seq<Token>) {
    ts != [] && (ts[0].Note? || HasNote(ts[1..]))
  }

  /** Items and blanks, an item last. */
  predicate EndsInItem(ts: seq<Token>) {
    ts != [] && !ts[0].Note? && if |ts| == 1 then IsItem(ts[0]) else EndsInItem(ts[1..])
  }

  /** Items, perhaps with blanks between them. */
  predicate IsPiece(ts: seq<Token>) {
    EndsInItem(ts) && IsItem(ts[0])
  }

  lemma {:induction false} Reaches(s: string, i: nat, ts: seq<Token>, commas: bool)
    requires TokensAt(s, i, ts, commas) && i <= |s|
    ensures i + Length(ts) <= |s|
    decreases |ts|
  {
    if ts != [] {
      assert TokenFits(s, i, ts[0], commas);
      Reaches(s, i + TokenLength(ts[0]), ts[1..], commas);
    }
  }

  /** Scanning from i in state c comes to the same as scanning from j in state c'. */
  ghost predicate Leads(s: string, i: nat, c: Scan, j: nat, c': Scan, commas: bool) {
    forall b {:trigger Uncommented(s, i, c, b)} :: b == commas ==> Uncommented(s, i, c, b) == Uncommented(s, j, c', b)
  }

  lemma {:induction false} LeadsOn(s: string, i: nat, c: Scan, j: nat, c': Scan, k: nat, c'': Scan, commas: bool)
    requires Leads(s, i, c, j, c', commas) && Leads(s, j, c', k, c'', commas)
    ensures Leads(s, i, c, k, c'', commas)
  {
  }

  /** The state after an item from i to j. */
  function ItemGathered(s: string, i: nat, j: nat, c: Scan): Scan {
    if c.closed then Scan(c.acc + Sub(s, c.left, c.right) + " ", i, j, false) else c.(right := j)
  }

  lemma {:induction false} ItemScanned(s: string, i: nat, t: Token, c: Scan, commas: bool)
    requires TokenAt(s, i, t, commas) && IsItem(t)
    ensures Leads(s, i, c, i + TokenLength(t), ItemGathered(s, i, i + TokenLength(t), c), commas)
  {
    ItemFound(s, i, t, commas);
  }

  lemma {:induction false} GapTokenScanned(s: string, i: nat, t: Token, c: Scan, commas: bool)
    requires TokenAt(s, i, t, commas) && !IsItem(t)
    ensures Leads(s, i, c, i + TokenLength(t), c.(closed := c.closed || t.Note?), commas)
  {
    assert TokenFits(s, i, t, commas);
    if t.Note? {
      NoteFound(s, i, i + t.length);
      assert s[i] == '/';
    }
  }

  /** A gap changes nothing in the scan but that a comment was seen. */
  lemma {:induction false} GapScanned(s: string, i: nat, ts: seq<Token>, c: Scan, c': Scan, commas: bool)
    requires TokensAt(s, i, ts, commas) && IsGap(ts) && c' == c.(closed := c.closed || HasNote(ts))
    ensures Leads(s, i, c, i + Length(ts), c', commas)
    decreases |ts|
  {
    if ts != [] {
      var j, c1 := i + TokenLength(ts[0]), c.(closed := c.closed || ts[0].Note?);
      GapTokenScanned(s, i, ts[0], c, commas);
      GapScanned(s, j, ts[1..], c1, c', commas);
      LeadsOn(s, i, c, j, c1, i + Length(ts), c', commas);
    }
  }

  lemma {:induction false} GapSkipped(s: string, i: nat, ts: seq<Token>, commas: bool)
    requires TokensAt(s, i, ts, commas) && IsGap(ts)
    ensures SpaceEnd(s, i) == SpaceEnd(s, i + Length(ts))
    decreases |ts|
  {
    if ts != [] {
      var j := i + TokenLength(ts[0]);
      assert TokenFits(s, i, ts[0], commas);
      if ts[0].Note? {
        NoteFound(s, i, j);
      }
      GapSkipped(s, j, ts[1..], commas);
    }
  }

  /** The piece that is being gathered grows to the end of its last item. */
  lemma {:induction false} PieceGrows(s: string, i: nat, ts: seq<Token>, c: Scan, c': Scan, commas: bool)
    requires TokensAt(s, i, ts, commas) && EndsInItem(ts) && !c.closed && c' == c.(right := i + Length(ts))
    ensures Leads(s, i, c, i + Length(ts), c', commas)
    decreases |ts|
  {
    var j := i + TokenLength(ts[0]);
    var c1 := if IsItem(ts[0]) then c.(right := j) else c;
    if IsItem(ts[0]) {
      ItemScanned(s, i, ts[0], c, commas);
    } else {
      GapTokenScanned(s, i, ts[0], c, commas);
    }
    if |ts| > 1 {
      PieceGrows(s, j, ts[1..], c1, c', commas);
      LeadsOn(s, i, c, j, c1, i + Length(ts), c', commas);
    } else {
      assert ts[1..] == [];
    }
  }

  /** A piece that comes after a comment is set apart by one space. */
  lemma {:induction false} PieceScanned(s: string, i: nat, ts: seq<Token>, c: Scan, c': Scan, commas: bool)
    requires TokensAt(s, i, ts, commas) && IsPiece(ts) && c' == ItemGathered(s, i, i + Length(ts), c)
    ensures Leads(s, i, c, i + Length(ts), c', commas)
  {
    var k := i + TokenLength(ts[0]);
    var c1 := ItemGathered(s, i, k, c);
    ItemScanned(s, i, ts[0], c, commas);
    if |ts| > 1 {
      PieceGrows(s, k, ts[1..], c1, c', commas);
      LeadsOn(s, i, c, k, c1, i + Length(ts), c', commas);
    } else {
      assert ts[1..] == [];
    }
  }

  // ----- what is left when comments go

  /** A gap and the piece after it. */
  datatype Part = Part(gap: seq<Token>, piece: seq<Token>)

  function PartLength(p: Part): nat {
    Length(p.gap) + Length(p.piece)
  }

  function PartsLength(parts: seq<Part>): nat {
    if parts == [] then 0 else PartLength(parts[0]) + PartsLength(parts[1..])
  }

  ghost predicate PartAt(s: string, i: nat, p: Part, first: bool, commas: bool) {
    && IsGap(p.gap) && (first || HasNote(p.gap)) && IsPiece(p.piece)
    && TokensAt(s, i, p.gap, commas) && TokensAt(s, i + Length(p.gap), p.piece, commas)
  }

  /** Pieces with gaps before them; a gap between two pieces has a comment in it. */
  ghost predicate PartsAt(s: string, i: nat, parts: seq<Part>, first: bool, commas: bool)
    decreases |parts|
  {
    parts == [] ||
    (PartAt(s, i, parts[0], first, commas) && PartsAt(s, i + PartLength(parts[0]), parts[1..], false, commas))
  }

  /** The pieces as they stand in the text. */
  function Pieces(s: string, i: nat, parts: seq<Part>): seq<string>
    decreases |parts|
  {
    if parts == [] then []
    else
      var j := i + PartLength(parts[0]);
      [Sub(s, i + Length(parts[0].gap), j)] + Pieces(s, j, parts[1..])
  }

  /** Texts with single spaces between them. */
  function Spaced(texts: seq<string>): string {
    if texts == [] then ""
    else if |texts| == 1 then texts[0]
    else Spaced(texts[..|texts| - 1]) + " " + texts[|texts| - 1]
  }

  lemma {:induction false} SpacedSnoc(texts: seq<string>, last: string)
    requires texts != []
    ensures Spaced(texts + [last]) == Spaced(texts) + " " + last
  {
    assert (texts + [last])[..|texts|] == texts;
  }

  /** A comment that nothing finishes. */
  predicate OpenNoteAt(s: string, e: nat) {
    && CommentAt(s, e)
    && if s[e + 1] == '/' then forall p :: e + 2 <= p < |s| ==> !IsEol(s[p])
       else forall p {:trigger s[p]} :: e + 2 <= p < |s| - 1 ==> s[p] != '*' || s[p + 1] != '/'
  }

  /** The text ends at position e, or in a comment from there on, or the argument ends there where
      arguments are told apart. */
  predicate Ends(s: string, e: nat, commas: bool) {
    e == |s| || OpenNoteAt(s, e) || (commas && e < |s| && s[e] == ',')
  }

  /** A gap to the end. */
  ghost predicate LastAt(s: string, i: nat, last: seq<Token>, e: nat, commas: bool) {
    TokensAt(s, i, last, commas) && IsGap(last) && e == i + Length(last) && Ends(s, e, commas)
  }

  /** Where the scan stops: right there, or at the end of the text if not beyond it. */
  predicate StopsAt(s: string, e: nat, stop: nat) {
    if OpenNoteAt(s, e) then stop >= |s| else stop == e
  }

  /** Pieces, and a gap after them, up to the end at position e. */
  ghost predicate LaidOut(s: string, i: nat, parts: seq<Part>, last: seq<Token>, e: nat, commas: bool) {
    PartsAt(s, i, parts, true, commas) && LastAt(s, i + PartsLength(parts), last, e, commas)
  }

  /** The state after one more part, and after several. */
  function Gathered(s: string, i: nat, p: Part, c: Scan): Scan {
    Scan(c.acc + Sub(s, c.left, c.right) + " ", i + Length(p.gap), i + PartLength(p), false)
  }

  function GatheredAll(s: string, i: nat, parts: seq<Part>, c: Scan): Scan
    decreases |parts|
  {
    if parts == [] then c else GatheredAll(s, i + PartLength(parts[0]), parts[1..], Gathered(s, i, parts[0], c))
  }

  lemma {:induction false} PartScanned(s: string, i: nat, p: Part, c: Scan, commas: bool)
    requires PartAt(s, i, p, false, commas) && !c.closed
    ensures Leads(s, i, c, i + PartLength(p), Gathered(s, i, p, c), commas)
  {
    var a, c1 := i + Length(p.gap), c.(closed := true);
    GapScanned(s, i, p.gap, c, c1, commas);
    PieceScanned(s, a, p.piece, c1, Gathered(s, i, p, c), commas);
    LeadsOn(s, i, c, a, c1, i + PartLength(p), Gathered(s, i, p, c), commas);
  }

  lemma {:induction false} PartsScanned(s: string, i: nat, parts: seq<Part>, c: Scan, c': Scan, commas: bool)
    requires PartsAt(s, i, parts, false, commas) && !c.closed && c' == GatheredAll(s, i, parts, c)
    ensures Leads(s, i, c, i + PartsLength(parts), c', commas) && !c'.closed
    decreases |parts|
  {
    if parts != [] {
      var j, c1 := i + PartLength(parts[0]), Gathered(s, i, parts[0], c);
      PartScanned(s, i, parts[0], c, commas);
      PartsScanned(s, j, parts[1..], c1, c', commas);
      LeadsOn(s, i, c, j, c1, i + PartsLength(parts), c', commas);
    }
  }

  /** The state has gathered some texts, the last of them still growing. */
  ghost predicate Holds(s: string, c: Scan, done: seq<string>) {
    done != [] && c.acc + Sub(s, c.left, c.right) == Spaced(done)
  }

  lemma {:induction false} MoreHeld(s: string, i: nat, p: Part, c: Scan, done: seq<string>)
    requires Holds(s, c, done)
    ensures Holds(s, Gathered(s, i, p, c), done + [Sub(s, i + Length(p.gap), i + PartLength(p))])
  {
    SpacedSnoc(done, Sub(s, i + Length(p.gap), i + PartLength(p)));
  }

  lemma {:induction false} FirstPiece(s: string, i: nat, parts: seq<Part>, done: seq<string>)
    requires parts != []
    ensures var j := i + PartLength(parts[0]);
            done + Pieces(s, i, parts) == done + [Sub(s, i + Length(parts[0].gap), j)] + Pieces(s, j, parts[1..])
  {
    var j := i + PartLength(parts[0]);
    var p, rest := Sub(s, i + Length(parts[0].gap), j), Pieces(s, j, parts[1..]);
    assert done + ([p] + rest) == done + [p] + rest;
  }

  lemma {:induction false} AllHeld(s: string, i: nat, parts: seq<Part>, c: Scan, done: seq<string>, all: seq<string>)
    requires Holds(s, c, done) && all == done + Pieces(s, i, parts)
    ensures Holds(s, GatheredAll(s, i, parts, c), all)
    decreases |parts|
  {
    if parts == [] {
      assert done + [] == done;
    } else {
      var j := i + PartLength(parts[0]);
      MoreHeld(s, i, parts[0], c, done);
      FirstPiece(s, i, parts, done);
      AllHeld(s, j, parts[1..], Gathered(s, i, parts[0], c), done + [Sub(s, i + Length(parts[0].gap), j)], all);
    }
  }

  lemma {:induction false} ScanEnds(s: string, i: nat, last: seq<Token>, e: nat, c: Scan, commas: bool)
    requires LastAt(s, i, last, e, commas)
    ensures Uncommented(s, i, c, commas) == (c.acc + Sub(s, c.left, c.right), EndOf(s, e))
  {
    var c' := c.(closed := c.closed || HasNote(last));
    GapScanned(s, i, last, c, c', commas);
    AtEnd(s, e, c', commas);
  }

  function EndOf(s: string, e: nat): nat {
    if CommentAt(s, e) then CommentEnd(s, e) else e
  }

  lemma {:induction false} LineNeverEnds(s: string, i: nat)
    requires forall p :: i <= p < |s| ==> !IsEol(s[p])
    ensures LineCommentEnd(s, i) >= |s|
    decreases |s| - i
  {
    if i + 1 < |s| {
      LineNeverEnds(s, i + 1);
    }
  }

  lemma {:induction false} BlockNeverEnds(s: string, i: nat)
    requires forall p {:trigger s[p]} :: i <= p < |s| - 1 ==> s[p] != '*' || s[p + 1] != '/'
    ensures BlockCommentEnd(s, i) >= |s|
    decreases |s| - i
  {
    if i + 2 < |s| {
      BlockNeverEnds(s, i + 1);
    }
  }

  lemma {:induction false} AtEnd(s: string, e: nat, c: Scan, commas: bool)
    requires Ends(s, e, commas)
    ensures StopsAt(s, e, EndOf(s, e)) && SpaceEnd(s, e) == EndOf(s, e)
    ensures Uncommented(s, e, c, commas) == (c.acc + Sub(s, c.left, c.right), EndOf(s, e))
    ensures Uncommented(s, EndOf(s, e), c, commas) == (c.acc + Sub(s, c.left, c.right), EndOf(s, e))
  {
    if OpenNoteAt(s, e) {
      if s[e + 1] == '/' {
        LineNeverEnds(s, e + 2);
      } else {
        BlockNeverEnds(s, e + 2);
      }
      assert Uncommented(s, e, c, commas) == Uncommented(s, EndOf(s, e), c.(closed := true), commas);
    }
  }

  /** Uncommenting from i on starts a scan that comes to j in state c. */
  ghost predicate Starts(s: string, i: nat, j: nat, c: Scan, commas: bool) {
    forall b {:trigger UncommentedFrom(s, i, b)} :: b == commas ==> UncommentedFrom(s, i, b) == Uncommented(s, j, c, b)
  }

  /** Uncommenting from i on gives a text and the position where it stops. */
  ghost predicate Yields(s: string, i: nat, text: string, stop: nat, commas: bool) {
    forall b {:trigger UncommentedFrom(s, i, b)} :: b == commas ==> UncommentedFrom(s, i, b) == (text, stop)
  }

  lemma {:induction false} FirstScanned(s: string, i: nat, p: Part, commas: bool)
    requires PartAt(s, i, p, true, commas)
    ensures var a, j := i + Length(p.gap), i + PartLength(p);
            Starts(s, i, j, Scan("", a, j, false), commas)
  {
    var a := i + Length(p.gap);
    GapSkipped(s, i, p.gap, commas);
    ItemFound(s, a, p.piece[0], commas);
    assert SpaceEnd(s, a) == a;
    PieceScanned(s, a, p.piece, Scan("", a, a, false), Scan("", a, i + PartLength(p), false), commas);
  }

  lemma {:induction false} AllScanned(s: string, i: nat, parts: seq<Part>, c: Scan, last: seq<Token>, e: nat,
      all: seq<string>, commas: bool)
    requires PartsAt(s, i, parts, false, commas) && !c.closed && LastAt(s, i + PartsLength(parts), last, e, commas)
    requires Holds(s, GatheredAll(s, i, parts, c), all)
    ensures Uncommented(s, i, c, commas) == (Spaced(all), EndOf(s, e))
  {
    var c' := GatheredAll(s, i, parts, c);
    PartsScanned(s, i, parts, c, c', commas);
    ScanEnds(s, i + PartsLength(parts), last, e, c', commas);
  }

  lemma {:induction false} PiecesHeld(s: string, i: nat, parts: seq<Part>, a: nat, j: nat, all: seq<string>)
    requires parts != [] && a == i + Length(parts[0].gap) && j == i + PartLength(parts[0]) && all == Pieces(s, i, parts)
    ensures Holds(s, GatheredAll(s, j, parts[1..], Scan("", a, j, false)), all)
  {
    StartsHolding(s, a, j);
    AllHeld(s, j, parts[1..], Scan("", a, j, false), [Sub(s, a, j)], all);
  }

  lemma {:induction false} StartsHolding(s: string, a: nat, j: nat)
    ensures Holds(s, Scan("", a, j, false), [Sub(s, a, j)])
  {
    assert "" + Sub(s, a, j) == Sub(s, a, j);
  }

  lemma {:induction false} PiecesKept(s: string, i: nat, parts: seq<Part>, last: seq<Token>, e: nat, a: nat, j: nat,
      all: seq<string>, commas: bool)
    requires Starts(s, i, j, Scan("", a, j, false), commas)
    requires PartsAt(s, j, parts, false, commas) && LastAt(s, j + PartsLength(parts), last, e, commas)
    requires Holds(s, GatheredAll(s, j, parts, Scan("", a, j, false)), all)
    ensures Yields(s, i, Spaced(all), EndOf(s, e), commas)
  {
    AllScanned(s, j, parts, Scan("", a, j, false), last, e, all, commas);
  }

  lemma {:induction false} SomeKept(s: string, i: nat, parts: seq<Part>, last: seq<Token>, e: nat, all: seq<string>,
      commas: bool)
    requires parts != [] && PartAt(s, i, parts[0], true, commas) && all == Pieces(s, i, parts)
    requires var j := i + PartLength(parts[0]);
             PartsAt(s, j, parts[1..], false, commas) && LastAt(s, j + PartsLength(parts[1..]), last, e, commas)
    ensures Yields(s, i, Spaced(all), EndOf(s, e), commas)
  {
    var a, j := i + Length(parts[0].gap), i + PartLength(parts[0]);
    FirstScanned(s, i, parts[0], commas);
    PiecesHeld(s, i, parts, a, j, all);
    PiecesKept(s, i, parts[1..], last, e, a, j, all, commas);
  }

  /** Removing comments keeps every piece as it stands, with quoted parts, blanks inside, and the
      commas and comment marks in them; a gap with comments becomes one space, and the gaps at
      both ends go. */
  lemma {:induction false} CommentsRemoved(s: string, i: nat, parts: seq<Part>, last: seq<Token>, e: nat, commas: bool)
    requires LaidOut(s, i, parts, last, e, commas)
    ensures var (text, stop) := UncommentedFrom(s, i, commas);
            text == Spaced(Pieces(s, i, parts)) && StopsAt(s, e, stop)
  {
    if parts == [] {
      var stop := EndOf(s, e);
      GapSkipped(s, i, last, commas);
      AtEnd(s, e, Scan("", stop, stop, false), commas);
      assert "" + Sub(s, stop, stop) == "";
    } else {
      AtEnd(s, e, Scan("", e, e, false), commas);
      SomeKept(s, i, parts, last, e, Pieces(s, i, parts), commas);
    }
  }
}
