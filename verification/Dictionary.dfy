/** Dictionary files: the line a token is printed as, and what is read back from a line. */
module Dictionary {
  import opened Bytes
  import opened Constants

  const MIN_AUTO_EXTRA := 3
  const MAX_AUTO_EXTRA := 32

  const NEWLINE: byte := 10
  const QUOTE: byte := 34
  const HASH: byte := 35
  const EQUALS: byte := 61
  const AT: byte := 64
  const BACKSLASH: byte := 92
  const UNDERSCORE: byte := 95
  const LOWER_X: byte := 120

  datatype Problem = NoClosingQuote | NoOpeningQuote | EmptyKeyword | Unprintable | BadEscape | TooBig

  datatype Parsed = Skipped | Keyword(data: seq<byte>) | Malformed(problem: Problem)

  // ---- Characters ----

  predicate IsSpace(b: byte) { b == 32 || 9 <= b <= 13 }

  predicate IsDigit(b: byte) { 48 <= b <= 57 }

  predicate IsAlnum(b: byte) { IsDigit(b) || 65 <= b <= 90 || 97 <= b <= 122 }

  predicate IsLabelChar(b: byte) { IsAlnum(b) || b == UNDERSCORE }

  predicate IsHex(b: byte) { IsDigit(b) || 65 <= b <= 70 || 97 <= b <= 102 }

  function HexValue(b: byte): (v: nat)
    requires IsHex(b)
    ensures v < 16
  {
    if IsDigit(b) then b - 48 else if b <= 70 then b - 55 else b - 87
  }

  /** The digit "%x" prints. */
  function HexDigit(v: nat): (b: byte)
    requires v < 16
    ensures IsHex(b) && HexValue(b) == v
  {
    if v < 10 then 48 + v else 87 + v
  }

  // ---- Printing ----

  predicate NeedsEscape(b: byte) {
    b <= 31 || b >= 127 || b == QUOTE || b == BACKSLASH
  }

  function EscapedByte(b: byte): seq<byte> {
    if NeedsEscape(b) then [BACKSLASH, LOWER_X, HexDigit(b / 16), HexDigit(b % 16)] else [b]
  }

  function Escaped(s: seq<byte>): (r: seq<byte>)
    ensures |s| <= |r| <= 4 * |s|
  {
    if s == [] then [] else Escaped(s[..|s| - 1]) + EscapedByte(s[|s| - 1])
  }

  /** The bytes before the first zero. */
  function CString(s: seq<byte>): seq<byte> {
    if s == [] || s[0] == 0 then [] else [s[0]] + CString(s[1..])
  }

  function Text(token: seq<byte>, isText: bool): seq<byte> {
    if isText then CString(token) else token
  }

  function Line(text: seq<byte>): seq<byte> {
    [QUOTE] + Escaped(text) + [QUOTE, NEWLINE]
  }

  // ---- Parsing ----

  function TrimLeft(s: seq<byte>): seq<byte> {
    if s != [] && IsSpace(s[0]) then TrimLeft(s[1..]) else s
  }

  function TrimRight(s: seq<byte>): seq<byte> {
    if s != [] && IsSpace(s[|s| - 1]) then TrimRight(s[..|s| - 1]) else s
  }

  function SkipLabel(s: seq<byte>): seq<byte> {
    if s != [] && IsLabelChar(s[0]) then SkipLabel(s[1..]) else s
  }

  function SkipDigits(s: seq<byte>): seq<byte> {
    if s != [] && IsDigit(s[0]) then SkipDigits(s[1..]) else s
  }

  function SkipBlanks(s: seq<byte>): seq<byte> {
    if s != [] && (IsSpace(s[0]) || s[0] == EQUALS) then SkipBlanks(s[1..]) else s
  }

  function DigitsValue(s: seq<byte>, acc: nat): nat {
    if s != [] && IsDigit(s[0]) then DigitsValue(s[1..], 10 * acc + (s[0] - 48)) else acc
  }

  /** The C function of that name, read as a 32-bit unsigned number. */
  function Atoi(s: seq<byte>): nat {
    var t := TrimLeft(s);
    if t != [] && t[0] == 45 then (0 - DigitsValue(t[1..], 0)) % 0x1_0000_0000
    else if t != [] && t[0] == 43 then DigitsValue(t[1..], 0) % 0x1_0000_0000
    else DigitsValue(t, 0) % 0x1_0000_0000
  }

  function Before(prefix: seq<byte>, rest: Parsed): Parsed {
    if rest.Keyword? then Keyword(prefix + rest.data) else rest
  }

  /** What stands between the quotes. Unescaped quotes are taken as they are. */
  function Unescaped(s: seq<byte>): Parsed {
    if s == [] then Keyword([])
    else if s[0] <= 31 || s[0] >= 128 then Malformed(Unprintable)
    else if s[0] == BACKSLASH then
      if |s| >= 2 && (s[1] == BACKSLASH || s[1] == QUOTE) then Before([s[1]], Unescaped(s[2..]))
      else if |s| >= 4 && s[1] == LOWER_X && IsHex(s[2]) && IsHex(s[3]) then
        Before([16 * HexValue(s[2]) + HexValue(s[3])], Unescaped(s[4..]))
      else Malformed(BadEscape)
    else Before([s[0]], Unescaped(s[1..]))
  }

  function Body(s: seq<byte>): Parsed {
    if s == [] then Malformed(EmptyKeyword)
    else
      var r := Unescaped(s);
      if r.Keyword? && |r.data| > MAX_DICT_FILE then Malformed(TooBig) else r
  }

  function Quoted(s: seq<byte>): Parsed {
    var t := SkipBlanks(s);
    if t == [] || t[0] != QUOTE then Malformed(NoOpeningQuote) else Body(t[1..])
  }

  function Labelled(s: seq<byte>, level: nat): Parsed {
    var t := SkipLabel(s);
    if t != [] && t[0] == AT then
      if Atoi(t[1..]) > level then Skipped else Quoted(SkipDigits(t[1..]))
    else Quoted(t)
  }

  function Parse(line: seq<byte>, level: nat): Parsed {
    var t := TrimRight(TrimLeft(CString(line)));
    if t == [] || t[0] == HASH then Skipped
    else if t[|t| - 1] != QUOTE then Malformed(NoClosingQuote)
    else Labelled(t[..|t| - 1], level)
  }

  // ---- Reading back what was printed ----

  lemma BeforeTwice(a: seq<byte>, b: seq<byte>, r: Parsed)
    ensures Before(a, Before(b, r)) == Before(a + b, r)
  {
    if r.Keyword? {
      assert a + (b + r.data) == (a + b) + r.data;
    }
  }

  lemma UnescapesByte(b: byte, rest: seq<byte>)
    ensures Unescaped(EscapedByte(b) + rest) == Before([b], Unescaped(rest))
  {
    var s := EscapedByte(b) + rest;
    if NeedsEscape(b) {
      assert s[0] == BACKSLASH && s[1] == LOWER_X && s[2] == HexDigit(b / 16) && s[3] == HexDigit(b % 16);
      assert s[4..] == rest;
      assert 16 * (b / 16) + b % 16 == b;
    } else {
      assert s[0] == b && s[1..] == rest;
    }
  }

  lemma {:induction false} UnescapesEscaped(s: seq<byte>, rest: seq<byte>)
    ensures Unescaped(Escaped(s) + rest) == Before(s, Unescaped(rest))
  {
    if s == [] {
      assert Escaped(s) + rest == rest;
      assert Before(s, Unescaped(rest)) == Unescaped(rest);
    } else {
      var n := |s| - 1;
      assert Escaped(s) + rest == Escaped(s[..n]) + (EscapedByte(s[n]) + rest);
      UnescapesEscaped(s[..n], EscapedByte(s[n]) + rest);
      UnescapesByte(s[n], rest);
      BeforeTwice(s[..n], [s[n]], Unescaped(rest));
      assert s[..n] + [s[n]] == s;
    }
  }

  /** A printed line holds neither a zero nor a line break before its end. */
  lemma {:induction false} EscapedIsPrintable(s: seq<byte>)
    ensures forall b <- Escaped(s) :: 32 <= b < 127 && b != QUOTE
  {
    if s != [] {
      EscapedIsPrintable(s[..|s| - 1]);
    }
  }

  lemma {:induction false} CStringWhole(s: seq<byte>)
    requires 0 !in s
    ensures CString(s) == s
  {
    if s != [] {
      CStringWhole(s[1..]);
    }
  }

  lemma TrimsNewline(s: seq<byte>)
    requires s != [] && !IsSpace(s[|s| - 1])
    ensures TrimRight(s + [NEWLINE]) == s
  {
    var t := s + [NEWLINE];
    assert t[..|t| - 1] == s && t[|t| - 1] == NEWLINE;
  }

  lemma TrimsToQuoted(head: seq<byte>, body: seq<byte>)
    requires 0 !in head && 0 !in body && (head != [] ==> !IsSpace(head[0]))
    ensures TrimRight(TrimLeft(CString(head + ([QUOTE] + body + [QUOTE, NEWLINE])))) == head + [QUOTE] + body + [QUOTE]
  {
    var line := head + ([QUOTE] + body + [QUOTE, NEWLINE]);
    var kept := head + [QUOTE] + body + [QUOTE];
    CStringWhole(line);
    assert line == kept + [NEWLINE] && !IsSpace(line[0]);
    TrimsNewline(kept);
  }

  /** A line that ends in a quoted body is read from what stands before its last quote. */
  lemma ParsesQuoted(head: seq<byte>, body: seq<byte>, level: nat)
    requires 0 !in head && 0 !in body && (head != [] ==> !IsSpace(head[0]) && head[0] != HASH)
    ensures Parse(head + ([QUOTE] + body + [QUOTE, NEWLINE]), level) == Labelled(head + [QUOTE] + body, level)
  {
    TrimsToQuoted(head, body);
    var kept := head + [QUOTE] + body + [QUOTE];
    assert kept[0] == if head == [] then QUOTE else head[0];
    assert kept[..|kept| - 1] == head + [QUOTE] + body;
  }

  lemma BodyOfText(text: seq<byte>)
    requires |text| <= MAX_DICT_FILE
    ensures Body(Escaped(text)) == if text == [] then Malformed(EmptyKeyword) else Keyword(text)
  {
    UnescapesEscaped(text, []);
    assert Escaped(text) + [] == Escaped(text) && text + [] == text;
  }

  lemma QuotedIsBody(body: seq<byte>, level: nat)
    ensures Labelled([QUOTE] + body, level) == Body(body)
  {
    var inner := [QUOTE] + body;
    assert inner[0] == QUOTE && inner[1..] == body;
    assert SkipLabel(inner) == inner && SkipBlanks(inner) == inner;
  }

  /** Reading a printed line gives back the printed text, whatever the level asked for;
      an empty text is refused. */
  lemma ParseInvertsLine(text: seq<byte>, level: nat)
    requires |text| <= 128
    ensures Parse(Line(text), level) == if text == [] then Malformed(EmptyKeyword) else Keyword(text)
  {
    EscapedIsPrintable(text);
    ParsesQuoted([], Escaped(text), level);
    QuotedIsBody(Escaped(text), level);
    BodyOfText(text);
    assert [] + Line(text) == Line(text) && [] + [QUOTE] + Escaped(text) == [QUOTE] + Escaped(text);
  }

  // ---- Labels ----

  lemma {:induction false} SkipsLabel(name: seq<byte>, rest: seq<byte>)
    requires rest != [] && !IsLabelChar(rest[0])
    ensures (forall b <- name :: IsLabelChar(b)) ==> SkipLabel(name + rest) == rest
    ensures !(forall b <- name :: IsLabelChar(b)) ==>
              SkipLabel(name + rest) != [] && SkipLabel(name + rest)[0] in name
              && !IsLabelChar(SkipLabel(name + rest)[0])
  {
    if name == [] {
      assert name + rest == rest;
    } else {
      assert (name + rest)[1..] == name[1..] + rest;
      SkipsLabel(name[1..], rest);
      assert name == [name[0]] + name[1..];
    }
  }

  /** Nothing that ends a label or counts as a blank. */
  predicate Unbroken(name: seq<byte>) {
    && (forall b <- name :: b != 0 && !IsSpace(b) && b != EQUALS && b != AT && b != QUOTE)
    && (name != [] ==> name[0] != HASH)
  }

  lemma NamedIsBody(name: seq<byte>, body: seq<byte>, level: nat)
    requires Unbroken(name)
    ensures Labelled(name + [EQUALS] + [QUOTE] + body, level)
         == if forall b <- name :: IsLabelChar(b) then Body(body) else Malformed(NoOpeningQuote)
  {
    var rest := [EQUALS] + [QUOTE] + body;
    SkipsLabel(name, rest);
    assert name + [EQUALS] + [QUOTE] + body == name + rest;
    assert rest[1..] == [QUOTE] + body && rest[1..][1..] == body;
    assert SkipBlanks(rest) == SkipBlanks(rest[1..]) == rest[1..];
  }

  /** A printed text with a label in front of it is read back exactly if each byte of the label is
      alphanumeric or an underscore; a dash makes the line malformed. */
  lemma NamedLine(name: seq<byte>, text: seq<byte>, level: nat)
    requires Unbroken(name) && 1 <= |text| <= 128
    ensures Parse(name + [EQUALS] + Line(text), level)
         == if forall b <- name :: IsLabelChar(b) then Keyword(text) else Malformed(NoOpeningQuote)
  {
    EscapedIsPrintable(text);
    ParsesQuoted(name + [EQUALS], Escaped(text), level);
    NamedIsBody(name, Escaped(text), level);
    BodyOfText(text);
  }

  lemma {:induction false} CStringShort(s: seq<byte>)
    ensures |CString(s)| <= |s| && 0 !in CString(s)
    ensures CString(s) == s <==> 0 !in s
  {
    if s != [] {
      CStringShort(s[1..]);
    }
  }

  /** The round trip loses a token exactly when it is printed as text and holds a zero. */
  lemma RoundTrip(token: seq<byte>, isText: bool, level: nat)
    requires 3 <= |token| <= 32
    ensures Parse(Line(Text(token, isText)), level) == Keyword(token) <==> !isText || 0 !in token
    ensures Parse(Line(Text(token, isText)), level) == Malformed(EmptyKeyword) <==> isText && token[0] == 0
    ensures !Parse(Line(Text(token, isText)), level).Skipped?
  {
    CStringShort(token);
    ParseInvertsLine(Text(token, isText), level);
  }

  // ---- Keywords that can come out of a file ----

  lemma {:induction false} UnescapedIsShorter(s: seq<byte>)
    requires Unescaped(s).Keyword?
    ensures |Unescaped(s).data| <= |s|
    ensures s != [] ==> Unescaped(s).data != []
  {
    if s != [] {
      if s[0] != BACKSLASH {
        UnescapedIsShorter(s[1..]);
      } else if s[1] == BACKSLASH || s[1] == QUOTE {
        UnescapedIsShorter(s[2..]);
      } else {
        UnescapedIsShorter(s[4..]);
      }
    }
  }

  lemma KeywordSize(line: seq<byte>, level: nat)
    requires Parse(line, level).Keyword?
    ensures 1 <= |Parse(line, level).data| <= 128
  {
    var t := TrimRight(TrimLeft(CString(line)));
    var u := SkipLabel(t[..|t| - 1]);
    var v := SkipBlanks(if u != [] && u[0] == AT then SkipDigits(u[1..]) else u);
    UnescapedIsShorter(v[1..]);
  }
}
