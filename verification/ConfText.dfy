/** Configuration strings: quoting and unquoting, comments and spaces, and lists of
    arguments. Pointers into a string are positions; some of the skippers can pass its end. */
module ConfText {

  // ----- characters

  predicate IsSpace(c: char) {
    c == ' ' || 9 <= c as int <= 13
  }

  predicate IsOctal(c: char) {
    '0' <= c <= '7'
  }

  /** The value of a hexadecimal digit, or -1. */
  function HexValue(c: char): (v: int)
    ensures -1 <= v < 16
  {
    if '0' <= c <= '9' then c as int - '0' as int
    else if 'A' <= c <= 'F' then c as int - 'A' as int + 10
    else if 'a' <= c <= 'f' then c as int - 'a' as int + 10
    else -1
  }

  /** A string of bytes. */
  predicate Bytes(s: string) {
    forall i :: 0 <= i < |s| ==> s[i] as int < 256
  }

  function ToChar(n: nat): char {
    (n % 256) as char
  }

  /** The text between two positions, empty if they are not in order or not in the string. */
  function Sub(s: string, l: nat, r: nat): string {
    if l < r <= |s| then s[l..r] else ""
  }

  // ----- skipping comments, escapes and quotes

  predicate CommentAt(s: string, i: nat) {
    i + 1 < |s| && s[i] == '/' && (s[i + 1] == '/' || s[i + 1] == '*')
  }

  function LineCommentEnd(s: string, j: nat): (r: nat)
    ensures r > j
    decreases |s| - j
  {
    if j + 1 < |s| && s[j] != '\n' && s[j] != '\r' then LineCommentEnd(s, j + 1)
    else if j + 1 < |s| && s[j] == '\r' && s[j + 1] == '\n' then j + 2
    else j + 1
  }

  function BlockCommentEnd(s: string, j: nat): (r: nat)
    ensures r > j
    decreases |s| - j
  {
    if j + 2 < |s| && (s[j] != '*' || s[j + 1] != '/') then BlockCommentEnd(s, j + 1) else j + 2
  }

  /** The position after a comment; after an unfinished one it may be past the end. */
  function CommentEnd(s: string, i: nat): (r: nat)
    requires CommentAt(s, i)
    ensures r > i + 2
  {
    if s[i + 1] == '/' then LineCommentEnd(s, i + 2) else BlockCommentEnd(s, i + 2)
  }

  method SkipComment(s: string, i: nat) returns (r: nat)
    requires CommentAt(s, i)
    ensures r == CommentEnd(s, i)
  {
    r := i + 2;
    if s[i + 1] == '/' {
      while r + 1 < |s| && s[r] != '\n' && s[r] != '\r'
        invariant LineCommentEnd(s, r) == LineCommentEnd(s, i + 2)
      {
        r := r + 1;
      }
      if r + 1 < |s| && s[r] == '\r' && s[r + 1] == '\n' {
        r := r + 1;
      }
      return r + 1;
    }
    while r + 2 < |s| && (s[r] != '*' || s[r + 1] != '/')
      invariant BlockCommentEnd(s, r) == BlockCommentEnd(s, i + 2)
    {
      r := r + 1;
    }
    return r + 2;
  }

  function AngleEnd(s: string, j: nat): (r: nat)
    ensures r >= j
    decreases |s| - j
  {
    if j >= |s| then j
    else if s[j] == '>' then j + 1
    else if CommentAt(s, j) then AngleEnd(s, CommentEnd(s, j))
    else AngleEnd(s, j + 1)
  }

  function BackslashEnd(s: string, i: nat): (r: nat)
    requires i < |s|
    ensures r > i
  {
    if i + 1 >= |s| then i + 1
    else if s[i + 1] == '<' then AngleEnd(s, i + 2)
    else if s[i + 1] == '\r' && i + 2 < |s| && s[i + 2] == '\n' then i + 3
    else i + 2
  }

  method SkipBackslash(s: string, i: nat) returns (r: nat)
    requires i < |s| && s[i] == '\\'
    ensures r == BackslashEnd(s, i)
  {
    if i + 1 >= |s| {
      return i + 1;
    } else if s[i + 1] == '<' {
      r := i + 2;
      while r < |s|
        invariant AngleEnd(s, r) == AngleEnd(s, i + 2)
        decreases |s| - r
      {
        if s[r] == '>' {
          return r + 1;
        } else if r + 1 < |s| && s[r] == '/' && (s[r + 1] == '/' || s[r + 1] == '*') {
          r := SkipComment(s, r);
        } else {
          r := r + 1;
        }
      }
    } else if s[i + 1] == '\r' && i + 2 < |s| && s[i + 2] == '\n' {
      return i + 3;
    } else {
      return i + 2;
    }
  }

  /** The position after the closing quote, from a position inside the quotes. */
  function DoubleQuoteEnd(s: string, j: nat): nat
    decreases |s| - j
  {
    if j >= |s| then |s|
    else if s[j] == '\\' then DoubleQuoteEnd(s, BackslashEnd(s, j))
    else if s[j] == '\"' then j + 1
    else DoubleQuoteEnd(s, j + 1)
  }

  method SkipDoubleQuote(s: string, i: nat) returns (r: nat)
    requires i < |s| && s[i] == '\"'
    ensures r == DoubleQuoteEnd(s, i + 1)
  {
    r := i + 1;
    while r < |s|
      invariant DoubleQuoteEnd(s, r) == DoubleQuoteEnd(s, i + 1)
      decreases |s| - r
    {
      if s[r] == '\\' {
        r := SkipBackslash(s, r);
      } else if s[r] == '\"' {
        return r + 1;
      } else {
        r := r + 1;
      }
    }
    return |s|;
  }

  function SingleQuoteEnd(s: string, j: nat): nat
    decreases |s| - j
  {
    if j >= |s| then |s| else if s[j] == '\'' then j + 1 else SingleQuoteEnd(s, j + 1)
  }

  method SkipSingleQuote(s: string, i: nat) returns (r: nat)
    requires i < |s| && s[i] == '\''
    ensures r == SingleQuoteEnd(s, i + 1)
  {
    r := i + 1;
    while r < |s|
      invariant SingleQuoteEnd(s, r) == SingleQuoteEnd(s, i + 1)
    {
      if s[r] == '\'' {
        return r + 1;
      }
      r := r + 1;
    }
    return |s|;
  }

  function SpaceEnd(s: string, j: nat): (r: nat)
    ensures r >= j
    decreases |s| - j
  {
    if j >= |s| then j
    else if IsSpace(s[j]) then SpaceEnd(s, j + 1)
    else if CommentAt(s, j) then SpaceEnd(s, CommentEnd(s, j))
    else j
  }

  method SkipCommentSpace(s: string, i: nat) returns (r: nat)
    ensures r == SpaceEnd(s, i)
  {
    r := i;
    while r < |s|
      invariant SpaceEnd(s, r) == SpaceEnd(s, i)
      decreases |s| - r
    {
      if IsSpace(s[r]) {
      } else if r + 1 < |s| && s[r] == '/' && (s[r + 1] == '/' || s[r + 1] == '*') {
        r := SkipComment(s, r);
        r := r - 1;
      } else {
        break;
      }
      r := r + 1;
    }
  }

  // ----- removing comments

  /** The position after one item of text: a quoted part, a \<...> part, or one character. */
  function ItemEnd(s: string, j: nat): (r: nat)
    requires j < |s|
  {
    if s[j] == '\'' then SingleQuoteEnd(s, j + 1)
    else if s[j] == '\"' then DoubleQuoteEnd(s, j + 1)
    else if s[j] == '\\' && j + 1 < |s| && s[j + 1] == '<' then BackslashEnd(s, j)
    else j + 1
  }

  lemma {:induction false} QuoteEndsLater(s: string, j: nat)
    requires j <= |s|
    ensures DoubleQuoteEnd(s, j) >= j && SingleQuoteEnd(s, j) >= j
    decreases |s| - j
  {
    if j < |s| {
      QuoteEndsLater(s, j + 1);
      if s[j] == '\\' && BackslashEnd(s, j) <= |s| {
        QuoteEndsLater(s, BackslashEnd(s, j));
      }
    }
  }

  lemma ItemAdvances(s: string, j: nat)
    requires j < |s|
    ensures ItemEnd(s, j) > j
  {
    QuoteEndsLater(s, j + 1);
  }

  /** The state of the scan: text so far, the piece being gathered, and whether a comment has
      come after it. */
  datatype Scan = Scan(acc: string, left: nat, right: nat, closed: bool)

  /** The text without comments, from a position to the end or the first bare comma, and
      where the scan stopped. */
  function Uncommented(s: string, j: nat, c: Scan, commas: bool): (string, nat)
    decreases |s| - j
  {
    if j >= |s| || (commas && s[j] == ',') then (c.acc + Sub(s, c.left, c.right), j)
    else if IsSpace(s[j]) then Uncommented(s, j + 1, c, commas)
    else if CommentAt(s, j) then Uncommented(s, CommentEnd(s, j), c.(closed := true), commas)
    else
      ItemAdvances(s, j);
      var r := ItemEnd(s, j);
      if c.closed then Uncommented(s, r, Scan(c.acc + Sub(s, c.left, c.right) + " ", j, r, false), commas)
      else Uncommented(s, r, c.(right := r), commas)
  }

  function UncommentedFrom(s: string, i: nat, commas: bool): (string, nat) {
    var j := SpaceEnd(s, i);
    Uncommented(s, j, Scan("", j, j, false), commas)
  }

  method PartialUncomment(s: string, i: nat, commas: bool) returns (text: string, pos: nat)
    ensures (text, pos) == UncommentedFrom(s, i, commas)
  {
    pos := SkipCommentSpace(s, i);
    var sa := "";
    var left, right, closed := pos, pos, false;
    while pos < |s|
      invariant Uncommented(s, pos, Scan(sa, left, right, closed), commas) == UncommentedFrom(s, i, commas)
      decreases |s| - pos
    {
      if IsSpace(s[pos]) {
        pos := pos + 1;
      } else if pos + 1 < |s| && s[pos] == '/' && (s[pos + 1] == '/' || s[pos + 1] == '*') {
        pos := SkipComment(s, pos);
        closed := true;
      } else if s[pos] == ',' && commas {
        break;
      } else {
        ItemAdvances(s, pos);
        if closed {
          sa := sa + Sub(s, left, right) + " ";
          left := pos;
          closed := false;
        }
        if s[pos] == '\'' {
          pos := SkipSingleQuote(s, pos);
        } else if s[pos] == '\"' {
          pos := SkipDoubleQuote(s, pos);
        } else if s[pos] == '\\' && pos + 1 < |s| && s[pos + 1] == '<' {
          pos := SkipBackslash(s, pos);
        } else {
          pos := pos + 1;
        }
        right := pos;
      }
    }
    text := sa + Sub(s, left, right);
  }

  // ----- backslash escapes

  /** Up to three octal digits. */
  function OctalEscape(s: string, j: nat, c: nat, d: nat): (string, nat)
    decreases |s| - j
  {
    if j < |s| && IsOctal(s[j]) && d < 3 then OctalEscape(s, j + 1, c * 8 + (s[j] as int - '0' as int), d + 1)
    else ([ToChar(c)], j)
  }

  /** Any number of hexadecimal digits; the low eight bits are kept. */
  function HexEscape(s: string, j: nat, c: nat): (string, nat)
    decreases |s| - j
  {
    if j < |s| && HexValue(s[j]) >= 0 then HexEscape(s, j + 1, c * 16 + HexValue(s[j])) else ([ToChar(c)], j)
  }

  /** Pairs of hexadecimal digits up to '>'; comments and other characters are ignored. */
  function AngleEscape(s: string, j: nat, c: nat, d: nat, out: string): (string, nat)
    decreases |s| - j
  {
    if j >= |s| then (out, |s|)
    else if s[j] == '>' then (out, j + 1)
    else if HexValue(s[j]) >= 0 then
      var c' := c * 16 + HexValue(s[j]);
      if d + 1 == 2 then AngleEscape(s, j + 1, 0, 0, out + [ToChar(c')]) else AngleEscape(s, j + 1, c', d + 1, out)
    else if CommentAt(s, j) then AngleEscape(s, CommentEnd(s, j), c, d, out)
    else AngleEscape(s, j + 1, c, d, out)
  }

  /** What a backslash escape stands for, and the position after it. */
  function Escape(s: string, i: nat): (string, nat)
    requires i < |s|
  {
    if i + 1 == |s| then ("\\", |s|)
    else
      var e := s[i + 1];
      if e == '\r' then ("", if i + 2 < |s| && s[i + 2] == '\n' then i + 3 else i + 2)
      else if e == '\n' then ("", i + 2)
      else if e == 'a' then ([7 as char], i + 2)
      else if e == 'b' then ([8 as char], i + 2)
      else if e == 'f' then ([12 as char], i + 2)
      else if e == 'n' then ("\n", i + 2)
      else if e == 'r' then ("\r", i + 2)
      else if e == 't' then ("\t", i + 2)
      else if e == 'v' then ([11 as char], i + 2)
      else if IsOctal(e) then OctalEscape(s, i + 1, 0, 0)
      else if e == 'x' then HexEscape(s, i + 2, 0)
      else if e == '<' then AngleEscape(s, i + 2, 0, 0, "")
      else ([e], i + 2)
  }

  method ProcessBackslash(s: string, i: nat, sa: string) returns (r: nat, sa': string)
    requires i < |s| && s[i] == '\\'
    ensures r == Escape(s, i).1 && sa' == sa + Escape(s, i).0
  {
    if i == |s| - 1 {
      return |s|, sa + "\\";
    }
    var e := s[i + 1];
    if e == '\r' {
      return if i + 2 < |s| && s[i + 2] == '\n' then i + 3 else i + 2, sa;
    } else if e == '\n' {
      return i + 2, sa;
    } else if e == 'a' {
      return i + 2, sa + [7 as char];
    } else if e == 'b' {
      return i + 2, sa + [8 as char];
    } else if e == 'f' {
      return i + 2, sa + [12 as char];
    } else if e == 'n' {
      return i + 2, sa + "\n";
    } else if e == 'r' {
      return i + 2, sa + "\r";
    } else if e == 't' {
      return i + 2, sa + "\t";
    } else if e == 'v' {
      return i + 2, sa + [11 as char];
    } else if IsOctal(e) {
      var c: nat, d: nat := 0, 0;
      r := i + 1;
      while r < |s| && IsOctal(s[r]) && d < 3
        invariant OctalEscape(s, r, c, d) == OctalEscape(s, i + 1, 0, 0)
      {
        c := c * 8 + (s[r] as int - '0' as int);
        r, d := r + 1, d + 1;
      }
      return r, sa + [ToChar(c)];
    } else if e == 'x' {
      var c: nat := 0;
      r := i + 2;
      while r < |s| && HexValue(s[r]) >= 0
        invariant HexEscape(s, r, c) == HexEscape(s, i + 2, 0)
      {
        c := c * 16 + HexValue(s[r]);
        r := r + 1;
      }
      return r, sa + [ToChar(c)];
    } else if e == '<' {
      var c: nat, d: nat := 0, 0;
      r, sa' := i + 2, sa;
      ghost var out := "";
      while r < |s|
        invariant sa' == sa + out
        invariant AngleEscape(s, r, c, d, out) == AngleEscape(s, i + 2, 0, 0, "")
        decreases |s| - r
      {
        if s[r] == '>' {
          return r + 1, sa';
        } else if HexValue(s[r]) >= 0 {
          c := c * 16 + HexValue(s[r]);
          d := d + 1;
          if d == 2 {
            sa' := sa' + [ToChar(c)];
            out := out + [ToChar(c)];
            c, d := 0, 0;
          }
          r := r + 1;
        } else if r + 1 < |s| && s[r] == '/' && (s[r + 1] == '/' || s[r + 1] == '*') {
          r := SkipComment(s, r);
        } else {
          r := r + 1;
        }
      }
      return |s|, sa';
    } else {
      return i + 2, sa + [e];
    }
  }

  lemma {:induction false} EscapeAdvances(s: string, i: nat)
    requires i < |s|
    ensures i < Escape(s, i).1 <= |s|
  {
    if i + 1 < |s| {
      var e := s[i + 1];
      if IsOctal(e) {
        OctalAdvances(s, i + 1, 0, 0);
      } else if e == 'x' {
        HexAdvances(s, i + 2, 0);
      } else if e == '<' {
        AngleAdvances(s, i + 2, 0, 0, "");
      }
    }
  }

  lemma {:induction false} OctalAdvances(s: string, j: nat, c: nat, d: nat)
    requires j <= |s|
    ensures j <= OctalEscape(s, j, c, d).1 <= |s|
    decreases |s| - j
  {
    if j < |s| && IsOctal(s[j]) && d < 3 {
      OctalAdvances(s, j + 1, c * 8 + (s[j] as int - '0' as int), d + 1);
    }
  }

  lemma {:induction false} HexAdvances(s: string, j: nat, c: nat)
    requires j <= |s|
    ensures j <= HexEscape(s, j, c).1 <= |s|
    decreases |s| - j
  {
    if j < |s| && HexValue(s[j]) >= 0 {
      HexAdvances(s, j + 1, c * 16 + HexValue(s[j]));
    }
  }

  lemma {:induction false} AngleAdvances(s: string, j: nat, c: nat, d: nat, out: string)
    ensures (if j <= |s| then j else |s|) <= AngleEscape(s, j, c, d, out).1 <= |s|
    decreases |s| - j
  {
    if j < |s| && s[j] != '>' {
      if HexValue(s[j]) >= 0 {
        var c' := c * 16 + HexValue(s[j]);
        if d + 1 == 2 {
          AngleAdvances(s, j + 1, 0, 0, out + [ToChar(c')]);
        } else {
          AngleAdvances(s, j + 1, c', d + 1, out);
        }
      } else if CommentAt(s, j) {
        AngleAdvances(s, CommentEnd(s, j), c, d, out);
      } else {
        AngleAdvances(s, j + 1, c, d, out);
      }
    }
  }

  // ----- unquoting

  const BARE: char := 0 as char

  /** What is left of the text from position i on when quotes go and escapes are expanded;
      q is the quote the position is inside, or BARE. */
  function Unquoted(x: string, i: nat, q: char): string
    decreases |x| - i, 1
  {
    if i >= |x| then ""
    else if x[i] == '\"' || x[i] == '\'' then
      if q == BARE then Unquoted(x, i + 1, x[i])
      else if q == x[i] then Unquoted(x, i + 1, BARE)
      else [x[i]] + Unquoted(x, i + 1, q)
    else if x[i] == '\\' && i + 1 < |x| && (q == '\"' || (q == BARE && x[i + 1] == '<')) then
      Expanded(x, i, q)
    else [x[i]] + Unquoted(x, i + 1, q)
  }

  /** The same from a backslash on that starts an escape. */
  function Expanded(x: string, i: nat, q: char): string
    requires i < |x| && x[i] == '\\'
    decreases |x| - i, 0
  {
    EscapeAdvances(x, i);
    Escape(x, i).0 + Unquoted(x, Escape(x, i).1, q)
  }

  function UnquoteOf(s: string): string {
    Unquoted(UncommentedFrom(s, 0, false).0, 0, BARE)
  }

  method Unquote(str: string) returns (r: string)
    ensures r == UnquoteOf(str)
  {
    var xtr, stop := PartialUncomment(str, 0, false);
    r := UnquoteText(xtr);
  }

  /** The loop copies runs of plain characters lazily: text from start on is still to copy. */
  method UnquoteText(xtr: string) returns (r: string)
    ensures r == Unquoted(xtr, 0, BARE)
  {
    var s: nat, start: nat := 0, 0;
    var sa := "";
    var quoteState := BARE;
    ghost var goal := Unquoted(xtr, 0, BARE);
    while s < |xtr|
      invariant UnquotedTo(xtr, start, s, sa, quoteState, goal)
      invariant start == 0 ==> sa == ""
      decreases |xtr| - s
    {
      var c := xtr[s];
      if c == '\"' || c == '\'' {
        if quoteState == BARE || quoteState == c {
          var next := if quoteState == BARE then c else BARE;
          FlushQuote(xtr, start, s, sa, quoteState, goal, next);
          sa := sa + xtr[start..s];
          start := s + 1;
          quoteState := next;
        } else {
          CopyPlain(xtr, start, s, sa, quoteState, goal);
        }
      } else if c == '\\' && s + 1 < |xtr| && (quoteState == '\"' || (quoteState == BARE && xtr[s + 1] == '<')) {
        start, sa := FlushEscape(xtr, start, s, sa, quoteState, goal);
        s := start - 1;
      } else {
        CopyPlain(xtr, start, s, sa, quoteState, goal);
      }
      s := s + 1;
    }
    if start == 0 {
      assert xtr[start..s] == xtr;
      return xtr;
    }
    return sa + xtr[start..s];
  }

  lemma FlushQuote(x: string, start: nat, s: nat, sa: string, q: char, goal: string, q': char)
    requires s < |x| && UnquotedTo(x, start, s, sa, q, goal) && Unquoted(x, s, q) == Unquoted(x, s + 1, q')
    ensures UnquotedTo(x, s + 1, s + 1, sa + x[start..s], q', goal)
  {
    assert Unquoted(x, s, q) == "" + Unquoted(x, s + 1, q');
    Flush(x, start, s, sa, q, goal, "", s + 1, q');
  }

  method FlushEscape(xtr: string, start: nat, s: nat, sa: string, ghost q: char, ghost goal: string)
    returns (start': nat, sa': string)
    requires s < |xtr| && xtr[s] == '\\' && UnquotedTo(xtr, start, s, sa, q, goal)
    requires Unquoted(xtr, s, q) == Expanded(xtr, s, q)
    ensures start' > s && UnquotedTo(xtr, start', start', sa', q, goal)
  {
    EscapeAdvances(xtr, s);
    Flush(xtr, start, s, sa, q, goal, Escape(xtr, s).0, Escape(xtr, s).1, q);
    start', sa' := ProcessBackslash(xtr, s, sa + xtr[start..s]);
  }

  /** The text written, the plain characters still to be copied, and what the rest of the text
      will give, make up the result. */
  ghost predicate UnquotedTo(x: string, start: nat, s: nat, sa: string, q: char, goal: string) {
    start <= s <= |x| && sa + x[start..s] + Unquoted(x, s, q) == goal
  }

  lemma CopyPlain(x: string, start: nat, s: nat, sa: string, q: char, goal: string)
    requires s < |x| && UnquotedTo(x, start, s, sa, q, goal) && Unquoted(x, s, q) == [x[s]] + Unquoted(x, s + 1, q)
    ensures UnquotedTo(x, start, s + 1, sa, q, goal)
  {
    Copied(x, start, s, sa, Unquoted(x, s + 1, q));
  }

  lemma Copied(x: string, start: nat, s: nat, sa: string, rest: string)
    requires start <= s < |x|
    ensures sa + x[start..s] + ([x[s]] + rest) == sa + x[start..s + 1] + rest
  {
    assert x[start..s + 1] == x[start..s] + [x[s]];
  }

  lemma Flush(x: string, start: nat, s: nat, sa: string, q: char, goal: string, out: string, next: nat, q': char)
    requires s < next <= |x| && UnquotedTo(x, start, s, sa, q, goal)
    requires Unquoted(x, s, q) == out + Unquoted(x, next, q')
    ensures UnquotedTo(x, next, next, sa + x[start..s] + out, q', goal)
    ensures out == "" ==> UnquotedTo(x, next, next, sa + x[start..s], q', goal)
  {
    Assoc(sa + x[start..s], out, Unquoted(x, next, q'));
    assert x[next..next] == "";
    assert out == "" ==> sa + x[start..s] + out == sa + x[start..s];
    NothingPending(sa + x[start..s] + out, x[next..next]);
  }

  lemma NothingPending(a: string, nothing: string)
    requires nothing == ""
    ensures a + nothing == a
  {
  }

  // ----- quoting

  function OctalDigit(v: nat): char
    requires v < 8
  {
    ('0' as int + v) as char
  }

  /** A byte as a backslash and three octal digits. */
  function OctalText(u: nat): (t: string)
    requires u < 256
    ensures |t| == 4
  {
    ['\\', OctalDigit(u / 64), OctalDigit(u / 8 % 8), OctalDigit(u % 8)]
  }

  /** The escape sequence for a character, or nothing if it stands for itself. */
  function EscapeText(c: char, newlines: bool): string {
    if c == '\\' || c == '\"' || c == '$' then ['\\', c]
    else if c == '\t' then "\\t"
    else if c == '\r' then "\\r"
    else if c == '\n' then (if newlines then "" else "\\n")
    else
      var u := c as int % 256;
      if u < 32 || u >= 127 then OctalText(u) else ""
  }

  /** How one character appears between double quotes. */
  function QuotedChar(c: char, newlines: bool): string {
    if EscapeText(c, newlines) == "" then [c] else EscapeText(c, newlines)
  }

  function QuotedBody(s: string, newlines: bool): string {
    if s == "" then "" else QuotedChar(s[0], newlines) + QuotedBody(s[1..], newlines)
  }

  function QuoteOf(s: string, newlines: bool): string {
    "\"" + QuotedBody(s, newlines) + "\""
  }

  /** What stands for itself between double quotes. */
  predicate ShownPlainly(c: char, newlines: bool) {
    (' ' <= c <= '~' && c != '\\' && c != '\"' && c != '$') || (newlines && c == '\n')
  }

  /** A quoted byte string is printable, apart from newlines if they are allowed, and each byte is
      written as it is wherever it can be. */
  lemma {:induction false} QuotePrintable(s: string, newlines: bool)
    requires Bytes(s)
    ensures forall i :: 0 <= i < |QuotedBody(s, newlines)| ==>
              var c := QuotedBody(s, newlines)[i]; ' ' <= c <= '~' || (newlines && c == '\n')
    ensures (forall i :: 0 <= i < |s| ==> ShownPlainly(s[i], newlines)) ==> QuotedBody(s, newlines) == s
    ensures (exists i :: 0 <= i < |s| && !ShownPlainly(s[i], newlines)) ==> |QuotedBody(s, newlines)| > |s|
    ensures |QuotedBody(s, newlines)| >= |s|
  {
    if s != "" {
      CharPrintable(s[0], newlines);
      QuotePrintable(s[1..], newlines);
      assert s == [s[0]] + s[1..];
      if i :| 0 <= i < |s| && !ShownPlainly(s[i], newlines) {
        assert i == 0 || s[1..][i - 1] == s[i];
      }
    }
  }

  lemma CharPrintable(c: char, newlines: bool)
    requires c as int < 256
    ensures forall i :: 0 <= i < |QuotedChar(c, newlines)| ==>
              var d := QuotedChar(c, newlines)[i]; ' ' <= d <= '~' || (newlines && d == '\n')
    ensures if ShownPlainly(c, newlines) then QuotedChar(c, newlines) == [c] else |QuotedChar(c, newlines)| > 1
  {
  }

  lemma {:induction false} QuotedBodySnoc(s: string, newlines: bool)
    requires s != ""
    ensures QuotedBody(s, newlines) == QuotedBody(s[..|s| - 1], newlines) + QuotedChar(s[|s| - 1], newlines)
  {
    if |s| > 1 {
      var mid := s[1..][..|s| - 2];
      assert mid == s[..|s| - 1][1..];
      QuotedBodySnoc(s[1..], newlines);
      Assoc(QuotedChar(s[0], newlines), QuotedBody(mid, newlines), QuotedChar(s[|s| - 1], newlines));
    }
  }

  /** The text written and the plain characters still to be copied are the quoted form so far. */
  ghost predicate QuotedTo(str: string, start: nat, s: nat, sa: string, newlines: bool) {
    start <= s <= |str| && sa + str[start..s] == "\"" + QuotedBody(str[..s], newlines)
  }

  lemma QuoteStep(str: string, start: nat, s: nat, sa: string, q: string, newlines: bool)
    requires s < |str| && QuotedTo(str, start, s, sa, newlines) && q == QuotedChar(str[s], newlines)
    ensures q == [str[s]] ==> QuotedTo(str, start, s + 1, sa, newlines)
    ensures QuotedTo(str, s + 1, s + 1, sa + str[start..s] + q, newlines)
  {
    QuotedBodySnoc(str[..s + 1], newlines);
    assert str[..s + 1][..s] == str[..s];
    QuoteGrows(str, start, s, sa, QuotedBody(str[..s], newlines), q);
  }

  lemma QuoteGrows(str: string, start: nat, s: nat, sa: string, body: string, q: string)
    requires start <= s < |str| && sa + str[start..s] == "\"" + body
    ensures q == [str[s]] ==> sa + str[start..s + 1] == "\"" + (body + q)
    ensures sa + str[start..s] + q + str[s + 1..s + 1] == "\"" + (body + q)
  {
    Assoc("\"", body, q);
    if q == [str[s]] {
      assert str[start..s + 1] == str[start..s] + q;
      Assoc(sa, str[start..s], q);
    }
  }

  lemma Assoc(a: string, b: string, c: string)
    ensures a + (b + c) == a + b + c
  {
  }

  /** The loop flushes a run of plain characters only when one must be escaped. */
  method Quote(str: string, newlines: bool) returns (r: string)
    requires Bytes(str)
    ensures r == QuoteOf(str, newlines)
  {
    if str == "" {
      return "\"\"";
    }
    var sa := "\"";
    var start := 0;
    for s := 0 to |str|
      invariant start <= s
      invariant QuotedTo(str, start, s, sa, newlines)
    {
      var esc := EscapeText(str[s], newlines);
      QuoteStep(str, start, s, sa, if esc == "" then [str[s]] else esc, newlines);
      if esc != "" {
        sa := sa + str[start..s] + esc;
        start := s + 1;
      }
    }
    assert str[..|str|] == str && str[start..|str|] == str[start..];
    return sa + str[start..] + "\"";
  }

  // ----- quoting and unquoting are inverse

  /** The text from position k on begins with the quoted form of s, a double quote, and post. */
  predicate BodyAt(x: string, k: nat, s: string, newlines: bool, post: string) {
    k <= |x| && x[k..] == QuotedBody(s, newlines) + "\"" + post
  }

  lemma NextBody(x: string, k: nat, s: string, newlines: bool, post: string)
    requires BodyAt(x, k, s, newlines, post) && s != ""
    ensures var q := QuotedChar(s[0], newlines);
            && k + |q| < |x| && x[k..k + |q|] == q
            && BodyAt(x, k + |q|, s[1..], newlines, post)
  {
    var q := QuotedChar(s[0], newlines);
    var rest := QuotedBody(s[1..], newlines) + "\"" + post;
    assert x[k..] == q + rest;
    assert x[k + |q|..] == x[k..][|q|..];
    assert x[k..k + |q|] == x[k..][..|q|];
  }

  lemma CharsAt(x: string, k: nat, q: string)
    requires k + |q| <= |x| && x[k..k + |q|] == q
    ensures |q| > 0 ==> x[k] == q[0]
    ensures |q| > 1 ==> x[k + 1] == q[1]
    ensures |q| > 2 ==> x[k + 2] == q[2]
    ensures |q| > 3 ==> x[k + 3] == q[3]
  {
    var p := x[k..k + |q|];
    assert |q| > 0 ==> p[0] == x[k];
    assert |q| > 1 ==> p[1] == x[k + 1];
    assert |q| > 2 ==> p[2] == x[k + 2];
    assert |q| > 3 ==> p[3] == x[k + 3];
  }

  lemma QuotedCharSkipped(x: string, k: nat, c: char, newlines: bool)
    requires c as int < 256 && k + |QuotedChar(c, newlines)| < |x|
    requires x[k..k + |QuotedChar(c, newlines)|] == QuotedChar(c, newlines)
    ensures DoubleQuoteEnd(x, k) == DoubleQuoteEnd(x, k + |QuotedChar(c, newlines)|)
  {
    var q := QuotedChar(c, newlines);
    CharsAt(x, k, q);
    if |q| == 1 {
      assert x[k] != '\\' && x[k] != '\"';
    } else {
      assert BackslashEnd(x, k) == k + 2;
      if |q| == 4 {
        assert DoubleQuoteEnd(x, k + 2) == DoubleQuoteEnd(x, k + 3);
        assert DoubleQuoteEnd(x, k + 3) == DoubleQuoteEnd(x, k + 4);
      }
    }
  }

  /** The scanner finds the closing quote of a quoted string. */
  lemma {:induction false} QuoteEndFound(x: string, k: nat, s: string, newlines: bool, post: string)
    requires BodyAt(x, k, s, newlines, post) && Bytes(s)
    ensures DoubleQuoteEnd(x, k) == k + |QuotedBody(s, newlines)| + 1
    decreases s
  {
    if s == "" {
      assert x[k..][0] == '\"';
    } else {
      NextBody(x, k, s, newlines, post);
      QuoteEndFound(x, k + |QuotedChar(s[0], newlines)|, s[1..], newlines, post);
      QuotedCharSkipped(x, k, s[0], newlines);
    }
  }

  lemma OctalStep(x: string, j: nat, v: nat, c: nat, d: nat)
    requires j < |x| && v < 8 && x[j] == OctalDigit(v) && d < 3
    ensures OctalEscape(x, j, c, d) == OctalEscape(x, j + 1, c * 8 + v, d + 1)
  {
  }

  lemma OctalEnd(x: string, j: nat, u: nat)
    requires u < 256
    ensures OctalEscape(x, j, u, 3) == ([u as char], j)
  {
  }

  lemma OctalInverts(x: string, k: nat, u: nat)
    requires u < 256 && k + 4 < |x|
    requires x[k + 1] == OctalDigit(u / 64) && x[k + 2] == OctalDigit(u / 8 % 8) && x[k + 3] == OctalDigit(u % 8)
    ensures OctalEscape(x, k + 1, 0, 0) == ([u as char], k + 4)
  {
    ThreeDigits(x, k, u, u / 64, u / 8 % 8, u % 8);
  }

  lemma ThreeDigits(x: string, k: nat, u: nat, a: nat, b: nat, d: nat)
    requires a < 8 && b < 8 && d < 8 && u < 256 && (a * 8 + b) * 8 + d == u && k + 4 < |x|
    requires x[k + 1] == OctalDigit(a) && x[k + 2] == OctalDigit(b) && x[k + 3] == OctalDigit(d)
    ensures OctalEscape(x, k + 1, 0, 0) == ([u as char], k + 4)
  {
    OctalStep(x, k + 1, a, 0, 0);
    OctalStep(x, k + 2, b, a, 1);
    OctalStep(x, k + 3, d, a * 8 + b, 2);
    OctalEnd(x, k + 4, u);
  }

  /** An escaped character is expanded to itself. */
  lemma EscapeInverts(x: string, k: nat, c: char, newlines: bool)
    requires c as int < 256 && |QuotedChar(c, newlines)| > 1
    requires k + |QuotedChar(c, newlines)| < |x| && x[k..k + |QuotedChar(c, newlines)|] == QuotedChar(c, newlines)
    ensures x[k] == '\\' && Escape(x, k) == ([c], k + |QuotedChar(c, newlines)|)
  {
    var q := QuotedChar(c, newlines);
    CharsAt(x, k, q);
    if |q| == 4 {
      OctalInverts(x, k, c as int);
      EscapeIsOctal(x, k);
    } else {
      ShortInverts(x, k, c, newlines);
    }
  }

  lemma EscapeIsOctal(x: string, k: nat)
    requires k + 1 < |x| && IsOctal(x[k + 1])
    ensures Escape(x, k) == OctalEscape(x, k + 1, 0, 0)
  {
  }

  lemma ShortInverts(x: string, k: nat, c: char, newlines: bool)
    requires c as int < 256 && |QuotedChar(c, newlines)| == 2 && k + 2 < |x|
    requires x[k] == '\\' && x[k + 1] == QuotedChar(c, newlines)[1]
    ensures Escape(x, k) == ([c], k + 2)
  {
  }

  lemma QuotedCharUnquotes(x: string, k: nat, c: char, newlines: bool)
    requires c as int < 256 && k + |QuotedChar(c, newlines)| < |x|
    requires x[k..k + |QuotedChar(c, newlines)|] == QuotedChar(c, newlines)
    ensures Unquoted(x, k, '\"') == [c] + Unquoted(x, k + |QuotedChar(c, newlines)|, '\"')
  {
    var q := QuotedChar(c, newlines);
    CharsAt(x, k, q);
    if |q| > 1 {
      EscapeInverts(x, k, c, newlines);
      EscapedUnquotes(x, k, c, |q|);
    } else {
      PlainUnquotes(x, k, c);
    }
  }

  lemma EscapedUnquotes(x: string, k: nat, c: char, len: nat)
    requires k + 1 < |x| && x[k] == '\\' && Escape(x, k) == ([c], k + len)
    ensures Unquoted(x, k, '\"') == [c] + Unquoted(x, k + len, '\"')
  {
  }

  lemma PlainUnquotes(x: string, k: nat, c: char)
    requires k < |x| && x[k] == c && c != '\\' && c != '\"'
    ensures Unquoted(x, k, '\"') == [c] + Unquoted(x, k + 1, '\"')
  {
  }

  lemma ClosingUnquotes(x: string, k: nat, newlines: bool, post: string)
    requires BodyAt(x, k, "", newlines, post)
    ensures |post| < |x| && Unquoted(x, k, '\"') == Unquoted(x, |x| - |post|, BARE)
  {
    assert x[k] == x[k..][0] == '\"';
    assert |x[k..]| == 1 + |post|;
  }

  lemma FirstUnquotes(x: string, k: nat, s: string, newlines: bool, post: string, n: nat)
    requires BodyAt(x, k, s, newlines, post) && Bytes(s) && s != "" && n == |QuotedChar(s[0], newlines)|
    ensures Unquoted(x, k, '\"') == [s[0]] + Unquoted(x, k + n, '\"')
  {
    NextBody(x, k, s, newlines, post);
    QuotedCharUnquotes(x, k, s[0], newlines);
  }

  lemma SkipFirst(x: string, k: nat, s: string, newlines: bool, post: string, n: nat)
    requires BodyAt(x, k, s, newlines, post) && s != "" && n == |QuotedChar(s[0], newlines)|
    ensures BodyAt(x, k + n, s[1..], newlines, post)
  {
    NextBody(x, k, s, newlines, post);
  }

  lemma Prepend(s: string, rest: string)
    requires s != ""
    ensures [s[0]] + (s[1..] + rest) == s + rest
  {
    assert s == [s[0]] + s[1..];
  }

  /** Unquoting inside the quotes gives the string back, up to the text after them. */
  lemma {:induction false} BodyUnquotes(x: string, k: nat, s: string, newlines: bool, post: string)
    requires BodyAt(x, k, s, newlines, post) && Bytes(s)
    ensures |post| <= |x| && Unquoted(x, k, '\"') == s + Unquoted(x, |x| - |post|, BARE)
    decreases |s|
  {
    if s == "" {
      ClosingUnquotes(x, k, newlines, post);
    } else {
      var k' := AfterFirst(x, k, s, newlines, post);
      BodyUnquotes(x, k', s[1..], newlines, post);
      JoinFirst(x, k, k', s, Unquoted(x, |x| - |post|, BARE));
    }
  }

  lemma AfterFirst(x: string, k: nat, s: string, newlines: bool, post: string) returns (k': nat)
    requires BodyAt(x, k, s, newlines, post) && Bytes(s) && s != ""
    ensures BodyAt(x, k', s[1..], newlines, post)
    ensures Unquoted(x, k, '\"') == [s[0]] + Unquoted(x, k', '\"')
  {
    var n := |QuotedChar(s[0], newlines)|;
    SkipFirst(x, k, s, newlines, post, n);
    FirstUnquotes(x, k, s, newlines, post, n);
    k' := k + n;
  }

  lemma JoinFirst(x: string, k: nat, k': nat, s: string, rest: string)
    requires s != "" && Unquoted(x, k, '\"') == [s[0]] + Unquoted(x, k', '\"')
    requires Unquoted(x, k', '\"') == s[1..] + rest
    ensures Unquoted(x, k, '\"') == s + rest
  {
    Prepend(s, rest);
  }

  lemma QuoteIsBody(s: string, newlines: bool)
    ensures BodyAt(QuoteOf(s, newlines), 1, s, newlines, "")
    ensures QuoteOf(s, newlines)[0] == '\"'
  {
    assert QuoteOf(s, newlines)[1..] == QuotedBody(s, newlines) + "\"" + "";
  }

  /** A scan that meets one quoted item, then the end or a comma, yields just that item. */
  lemma OneItem(x: string, j: nat, r: nat, commas: bool)
    requires j < r <= |x| && x[j] == '\"' && ItemEnd(x, j) == r
    requires r == |x| || (commas && x[r] == ',')
    ensures Uncommented(x, j, Scan("", j, j, false), commas) == (x[j..r], r)
  {
    var c := Scan("", j, r, false);
    assert Uncommented(x, r, c, commas) == ("" + Sub(x, j, r), r);
    assert "" + x[j..r] == x[j..r];
    ItemAdvances(x, j);
  }

  /** A quoted string contains no comment and no bare space, so scanning leaves it alone. */
  lemma QuoteUncommented(s: string, newlines: bool)
    requires Bytes(s)
    ensures UncommentedFrom(QuoteOf(s, newlines), 0, false).0 == QuoteOf(s, newlines)
  {
    var x := QuoteOf(s, newlines);
    QuoteIsBody(s, newlines);
    QuoteEndFound(x, 1, s, newlines, "");
    assert ItemEnd(x, 0) == |x|;
    assert SpaceEnd(x, 0) == 0;
    OneItem(x, 0, |x|, false);
    assert x[0..|x|] == x;
  }

  /** Round trip: unquoting a quoted byte string gives it back, newlines allowed or not. */
  lemma QuoteRoundTrip(s: string, newlines: bool)
    requires Bytes(s)
    ensures UnquoteOf(QuoteOf(s, newlines)) == s
    ensures QuoteOf(s, newlines) != ""
  {
    var x := QuoteOf(s, newlines);
    QuoteUncommented(s, newlines);
    QuoteIsBody(s, newlines);
    BodyUnquotes(x, 1, s, newlines, "");
    assert Unquoted(x, |x|, BARE) == "";
  }

  // ----- argument lists

  /** The arguments from a position on; an empty last one is dropped. */
  function ArgsFrom(s: string, pos: nat): seq<string>
    decreases |s| - pos
  {
    if pos >= |s| then []
    else
      var (arg, stop) := UncommentedFrom(s, pos, true);
      StopsLater(s, pos);
      (if arg != "" || stop < |s| then [arg] else []) + ArgsFrom(s, stop + 1)
  }

  lemma {:induction false} ScanStopsLater(s: string, j: nat, c: Scan, commas: bool)
    ensures Uncommented(s, j, c, commas).1 >= j
    decreases |s| - j
  {
    if j >= |s| || (commas && s[j] == ',') {
    } else if IsSpace(s[j]) {
      ScanStopsLater(s, j + 1, c, commas);
    } else if CommentAt(s, j) {
      ScanStopsLater(s, CommentEnd(s, j), c.(closed := true), commas);
    } else {
      ItemAdvances(s, j);
      var r := ItemEnd(s, j);
      ScanStopsLater(s, r, Scan(c.acc + Sub(s, c.left, c.right) + " ", j, r, false), commas);
      ScanStopsLater(s, r, c.(right := r), commas);
    }
  }

  lemma StopsLater(s: string, pos: nat)
    ensures UncommentedFrom(s, pos, true).1 >= pos
  {
    var j := SpaceEnd(s, pos);
    ScanStopsLater(s, j, Scan("", j, j, false), true);
  }

  lemma NextArgument(s: string, pos: nat)
    requires pos < |s|
    ensures var (arg, stop) := UncommentedFrom(s, pos, true);
            stop >= pos && ArgsFrom(s, pos) == (if arg != "" || stop < |s| then [arg] else []) + ArgsFrom(s, stop + 1)
  {
    StopsLater(s, pos);
  }

  /** Splits at bare commas, appending to a list. */
  method ArgVec(str: string, conf: seq<string>) returns (conf': seq<string>)
    ensures conf' == conf + ArgsFrom(str, 0)
  {
    conf' := conf;
    var len := |str|;
    if len == 0 {
      return;
    }
    var pos := 0;
    while pos < len
      invariant conf' + ArgsFrom(str, pos) == conf + ArgsFrom(str, 0)
      decreases len - pos
    {
      NextArgument(str, pos);
      var arg;
      arg, pos := PartialUncomment(str, pos, true);
      if arg != "" || pos < len {
        conf' := conf' + [arg];
      }
      pos := pos + 1;
    }
  }

  function Joined(conf: seq<string>): string {
    if conf == [] then "" else if |conf| == 1 then conf[0] else conf[0] + ", " + Joined(conf[1..])
  }

  lemma {:induction false} JoinedSnoc(conf: seq<string>, last: string)
    requires conf != []
    ensures Joined(conf + [last]) == Joined(conf) + ", " + last
  {
    if |conf| > 1 {
      assert (conf + [last])[1..] == conf[1..] + [last];
      JoinedSnoc(conf[1..], last);
    }
  }

  method UnArgVec(conf: seq<string>) returns (r: string)
    ensures r == Joined(conf)
  {
    if |conf| == 0 {
      return "";
    } else if |conf| == 1 {
      return conf[0];
    }
    r := conf[0];
    for i := 1 to |conf|
      invariant r == Joined(conf[..i])
    {
      JoinedSnoc(conf[..i], conf[i]);
      assert conf[..i + 1] == conf[..i] + [conf[i]];
      r := r + ", " + conf[i];
    }
    assert conf[..|conf|] == conf;
  }

  function QuoteAll(ss: seq<string>, newlines: bool): seq<string> {
    seq(|ss|, i requires 0 <= i < |ss| => QuoteOf(ss[i], newlines))
  }

  function UnquoteAll(ss: seq<string>): seq<string> {
    seq(|ss|, i requires 0 <= i < |ss| => UnquoteOf(ss[i]))
  }

  /** The item at j..r comes right at k, or after a space, and is followed by nothing or a comma. */
  predicate Spot(x: string, k: nat, j: nat, r: nat) {
    k <= j < r <= |x| && (j == k || (j == k + 1 && x[k] == ' ')) && (r == |x| || x[r] == ',')
  }

  /** Scanning from an optional space and a quoted string yields that string, and stops right
      after it. */
  lemma QuotedArgument(x: string, k: nat, j: nat, r: nat, s: string, newlines: bool)
    requires Bytes(s) && Spot(x, k, j, r) && x[j..r] == QuoteOf(s, newlines)
    ensures UncommentedFrom(x, k, true) == (x[j..r], r)
  {
    var q := x[j..r];
    QuoteStarts(s, newlines);
    assert q[0] == x[j];
    SpaceBefore(x, k, j);
    assert x[j..] == q + x[r..];
    ItemQuoted(x, j, s, newlines, x[r..]);
    OneItem(x, j, r, true);
  }

  lemma SpaceBefore(x: string, k: nat, j: nat)
    requires k <= j < |x| && (j == k || (j == k + 1 && x[k] == ' ')) && x[j] == '\"'
    ensures SpaceEnd(x, k) == j
  {
    assert SpaceEnd(x, j) == j;
  }

  lemma QuoteStarts(s: string, newlines: bool)
    ensures |QuoteOf(s, newlines)| > 1 && QuoteOf(s, newlines)[0] == '\"'
  {
  }

  lemma ItemQuoted(x: string, j: nat, s: string, newlines: bool, post: string)
    requires Bytes(s) && j <= |x| && x[j..] == QuoteOf(s, newlines) + post
    ensures ItemEnd(x, j) == j + |QuoteOf(s, newlines)|
  {
    var body := QuotedBody(s, newlines);
    assert x[j] == x[j..][0] == '\"';
    assert x[j + 1..] == x[j..][1..];
    assert ("\"" + body + "\"" + post)[1..] == body + "\"" + post;
    QuoteEndFound(x, j + 1, s, newlines, post);
  }

  lemma JoinedFirst(q: string, rest: seq<string>)
    ensures Joined([q] + rest) == q + if rest == [] then "" else ", " + Joined(rest)
  {
    if rest != [] {
      assert ([q] + rest)[1..] == rest;
      Assoc(q, ", ", Joined(rest));
    }
  }

  /** The text from k on is t, or a space and t. */
  predicate AfterSpace(x: string, k: nat, t: string)
    requires k <= |x|
  {
    x[k..] == t || (k < |x| && x[k] == ' ' && x[k + 1..] == t)
  }

  lemma {:induction false} SplitJoined(x: string, k: nat, ss: seq<string>, newlines: bool)
    requires ss != [] && forall i :: 0 <= i < |ss| ==> Bytes(ss[i])
    requires k <= |x| && AfterSpace(x, k, Joined(QuoteAll(ss, newlines)))
    ensures ArgsFrom(x, k) == QuoteAll(ss, newlines)
    decreases |ss|
  {
    var r := SplitFirst(x, k, ss, newlines);
    QuoteAllFirst(ss, newlines);
    if |ss| > 1 {
      SplitJoined(x, r + 1, ss[1..], newlines);
    } else {
      NothingLeft(x, r + 1);
    }
  }

  /** The first of the joined strings is split off, and the others follow it. */
  lemma SplitFirst(x: string, k: nat, ss: seq<string>, newlines: bool) returns (r: nat)
    requires ss != [] && Bytes(ss[0]) && k <= |x| && AfterSpace(x, k, Joined(QuoteAll(ss, newlines)))
    ensures ArgsFrom(x, k) == [QuoteOf(ss[0], newlines)] + ArgsFrom(x, r + 1)
    ensures if |ss| == 1 then r == |x| else r < |x| && AfterSpace(x, r + 1, Joined(QuoteAll(ss[1..], newlines)))
  {
    var q, rest := QuoteOf(ss[0], newlines), QuoteAll(ss[1..], newlines);
    var t := Joined(QuoteAll(ss, newlines));
    QuoteAllFirst(ss, newlines);
    JoinedFirst(q, rest);
    QuoteStarts(ss[0], newlines);
    var j := if x[k..] == t then k else k + 1;
    r := FirstSpot(x, k, j, q, rest, Joined(rest), t);
    FirstArgument(x, k, j, r, ss[0], newlines);
  }

  /** Where the first of some joined strings lies. */
  lemma FirstSpot(x: string, k: nat, j: nat, q: string, rest: seq<string>, joined: string, t: string) returns (r: nat)
    requires j == k || (j == k + 1 && k < |x| && x[k] == ' ')
    requires j <= |x| && x[j..] == t && q != "" && t == q + if rest == [] then "" else ", " + joined
    ensures Spot(x, k, j, r) && x[j..r] == q
    ensures if rest == [] then r == |x| else r < |x| && AfterSpace(x, r + 1, joined)
  {
    r := j + |q|;
    assert x[j..r] == t[..|q|];
    assert x[r..] == t[|q|..];
    if rest != [] {
      assert x[r] == t[|q|] == ',' && x[r + 1] == t[|q| + 1] == ' ';
      assert x[r + 2..] == t[|q| + 2..] == joined;
    }
  }

  lemma NothingLeft(x: string, k: nat)
    requires k > |x|
    ensures ArgsFrom(x, k) == []
  {
  }

  lemma QuoteAllFirst(ss: seq<string>, newlines: bool)
    requires ss != []
    ensures QuoteAll(ss, newlines) == [QuoteOf(ss[0], newlines)] + QuoteAll(ss[1..], newlines)
  {
  }

  lemma FirstArgument(x: string, k: nat, j: nat, r: nat, s: string, newlines: bool)
    requires Bytes(s) && Spot(x, k, j, r) && x[j..r] == QuoteOf(s, newlines)
    ensures ArgsFrom(x, k) == [x[j..r]] + ArgsFrom(x, r + 1)
  {
    QuotedArgument(x, k, j, r, s, newlines);
    ArgumentFound(x, k, x[j..r], r);
  }

  lemma ArgumentFound(x: string, k: nat, arg: string, stop: nat)
    requires k < |x| && arg != "" && UncommentedFrom(x, k, true) == (arg, stop)
    ensures ArgsFrom(x, k) == [arg] + ArgsFrom(x, stop + 1)
  {
    NextArgument(x, k);
  }

  /** Round trip for lists: joining quoted strings with commas, splitting, and unquoting each
      piece gives back exactly the list. */
  lemma ListRoundTrip(ss: seq<string>, newlines: bool)
    requires forall i :: 0 <= i < |ss| ==> Bytes(ss[i])
    ensures ArgsFrom(Joined(QuoteAll(ss, newlines)), 0) == QuoteAll(ss, newlines)
    ensures UnquoteAll(ArgsFrom(Joined(QuoteAll(ss, newlines)), 0)) == ss
  {
    var x := Joined(QuoteAll(ss, newlines));
    if ss != [] {
      assert x[0..] == x;
      assert AfterSpace(x, 0, x);
      SplitJoined(x, 0, ss, newlines);
      forall i | 0 <= i < |ss|
        ensures UnquoteOf(QuoteAll(ss, newlines)[i]) == ss[i]
      {
        QuoteRoundTrip(ss[i], newlines);
      }
    }
  }
}
