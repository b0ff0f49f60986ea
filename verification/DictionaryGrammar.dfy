/** The lines of a dictionary file, written down as a grammar, against what the reader makes of them:
    any way to write a line, not only the printer's. */
module DictionaryGrammar {
  import opened Bytes
  import opened Dictionary
  import opened Options

  // ---- Characters, by name ----

  predicate Blank(b: byte) {
    b == ' ' as int || b == '\t' as int || b == '\n' as int || b == 11 || b == 12 || b == '\r' as int
  }

  predicate Letter(b: byte) {
    'a' as int <= b <= 'z' as int || 'A' as int <= b <= 'Z' as int
  }

  predicate Digit(b: byte) {
    '0' as int <= b <= '9' as int
  }

  predicate LabelByte(b: byte) {
    Letter(b) || Digit(b) || b == '_' as int
  }

  predicate Blanks(s: seq<byte>) {
    forall i | 0 <= i < |s| :: Blank(s[i])
  }

  predicate Digits(s: seq<byte>) {
    forall i | 0 <= i < |s| :: Digit(s[i])
  }

  predicate Label(s: seq<byte>) {
    forall i | 0 <= i < |s| :: LabelByte(s[i])
  }

  predicate Gaps(s: seq<byte>) {
    forall i | 0 <= i < |s| :: Blank(s[i]) || s[i] == '=' as int
  }

  // ---- Pieces ----

  /** What one byte of a keyword may be written as: itself, a backslash and itself, or two hexadecimal
      digits whose letters may be capitals. */
  datatype Piece = Plain(b: byte) | Slash(b: byte) | Hex(high: nat, low: nat, capital1: bool, capital2: bool)

  predicate Proper(p: Piece) {
    match p
    case Plain(b) => 32 <= b < 128 && b != '\\' as int
    case Slash(b) => b == '\\' as int || b == '\"' as int
    case Hex(high, low, _, _) => high < 16 && low < 16
  }

  function HexText(v: nat, capital: bool): byte
    requires v < 16
  {
    if v < 10 then '0' as int + v else (if capital then 'A' as int else 'a' as int) + v - 10
  }

  function Written(p: Piece): seq<byte>
    requires Proper(p)
  {
    match p
    case Plain(b) => [b]
    case Slash(b) => ['\\' as int, b]
    case Hex(high, low, c1, c2) => ['\\' as int, 'x' as int, HexText(high, c1), HexText(low, c2)]
  }

  function Meant(p: Piece): byte
    requires Proper(p)
  {
    if p.Hex? then 16 * p.high + p.low else p.b
  }

  predicate AllProper(ps: seq<Piece>) {
    forall i | 0 <= i < |ps| :: Proper(ps[i])
  }

  function WrittenAll(ps: seq<Piece>): seq<byte>
    requires AllProper(ps)
  {
    if ps == [] then [] else Written(ps[0]) + WrittenAll(ps[1..])
  }

  function MeantAll(ps: seq<Piece>): (s: seq<byte>)
    requires AllProper(ps)
    ensures |s| == |ps|
  {
    if ps == [] then [] else [Meant(ps[0])] + MeantAll(ps[1..])
  }

  lemma HexTextValue(v: nat, capital: bool)
    requires v < 16
    ensures IsHex(HexText(v, capital)) && HexValue(HexText(v, capital)) == v
  {
  }

  lemma HexOf(b: byte) returns (v: nat, capital: bool)
    requires IsHex(b)
    ensures v < 16 && HexText(v, capital) == b
  {
    v, capital := HexValue(b), b <= 70;
  }

  /** However a byte is written, the reader takes it for that byte. */
  lemma ReadsPiece(p: Piece, rest: seq<byte>)
    requires Proper(p)
    ensures Unescaped(Written(p) + rest) == Before([Meant(p)], Unescaped(rest))
  {
    var s := Written(p) + rest;
    match p
    case Plain(b) => assert s[0] == b && s[1..] == rest;
    case Slash(b) => assert s[0] == BACKSLASH && s[1] == b && s[2..] == rest;
    case Hex(high, low, c1, c2) =>
      HexTextValue(high, c1);
      HexTextValue(low, c2);
      assert s[0] == BACKSLASH && s[1] == LOWER_X && s[2] == HexText(high, c1) && s[3] == HexText(low, c2);
      assert s[4..] == rest;
  }

  lemma {:induction false} ReadsPieces(ps: seq<Piece>, rest: seq<byte>)
    requires AllProper(ps)
    ensures Unescaped(WrittenAll(ps) + rest) == Before(MeantAll(ps), Unescaped(rest))
  {
    if ps == [] {
      assert WrittenAll(ps) + rest == rest;
      assert Unescaped(rest).Keyword? ==> MeantAll(ps) + Unescaped(rest).data == Unescaped(rest).data;
    } else {
      assert WrittenAll(ps) + rest == Written(ps[0]) + (WrittenAll(ps[1..]) + rest);
      ReadsPiece(ps[0], WrittenAll(ps[1..]) + rest);
      ReadsPieces(ps[1..], rest);
      BeforeTwice([Meant(ps[0])], MeantAll(ps[1..]), Unescaped(rest));
    }
  }

  /** No piece begins here. */
  ghost predicate Stuck(tail: seq<byte>) {
    tail != [] && forall p: Piece | Proper(p) :: !(Written(p) <= tail)
  }

  lemma StuckIsRefused(tail: seq<byte>)
    requires Stuck(tail)
    ensures Unescaped(tail) == Malformed(if tail[0] <= 31 || tail[0] >= 128 then Unprintable else BadEscape)
  {
    if 32 <= tail[0] < 128 {
      NoneBegins(tail, Plain(tail[0]));
      if |tail| >= 2 {
        NoneBegins(tail, Slash(tail[1]));
      }
      if |tail| >= 4 && IsHex(tail[2]) && IsHex(tail[3]) {
        var high, c1 := HexOf(tail[2]);
        var low, c2 := HexOf(tail[3]);
        NoneBegins(tail, Hex(high, low, c1, c2));
      }
    }
  }

  lemma NoneBegins(tail: seq<byte>, p: Piece)
    requires Stuck(tail)
    ensures Proper(p) ==> |Written(p)| > |tail| || exists i | 0 <= i < |Written(p)| :: Written(p)[i] != tail[i]
  {
  }

  lemma FirstPiece(s: seq<byte>) returns (p: Piece)
    requires s != [] && !Stuck(s)
    ensures Proper(p) && Written(p) <= s
  {
    p :| Proper(p) && Written(p) <= s;
  }

  lemma OnePieceMore(p: Piece, ps: seq<Piece>)
    requires Proper(p) && AllProper(ps)
    ensures AllProper([p] + ps) && WrittenAll([p] + ps) == Written(p) + WrittenAll(ps) && |Written(p)| > 0
  {
    assert ([p] + ps)[1..] == ps;
  }

  // The longest run of pieces at the front.
  lemma {:induction false} Pieces(s: seq<byte>) returns (ps: seq<Piece>, tail: seq<byte>)
    ensures AllProper(ps) && s == WrittenAll(ps) + tail && (tail == [] || Stuck(tail))
    decreases |s|
  {
    if s == [] || Stuck(s) {
      ps, tail := [], s;
    } else {
      var p := FirstPiece(s);
      OnePieceMore(p, []);
      var qs, rest := Pieces(s[|Written(p)|..]);
      OnePieceMore(p, qs);
      ps, tail := [p] + qs, rest;
    }
  }

  /** Any text splits into pieces and a rest at which the reader gives up: it is a keyword exactly if
      there is no rest, and then the one that the pieces mean. */
  lemma ReadsExactly(s: seq<byte>) returns (ps: seq<Piece>, tail: seq<byte>)
    ensures AllProper(ps) && s == WrittenAll(ps) + tail && (tail == [] || Stuck(tail))
    ensures Unescaped(s) == if tail == [] then Keyword(MeantAll(ps))
                            else Malformed(if tail[0] <= 31 || tail[0] >= 128 then Unprintable else BadEscape)
  {
    ps, tail := Pieces(s);
    ReadsPieces(ps, tail);
    if tail == [] {
      assert MeantAll(ps) + [] == MeantAll(ps);
    } else {
      StuckIsRefused(tail);
    }
  }

  // ---- Printing ----

  /** A byte is printed as itself exactly if it is printable and neither a quote nor a backslash;
      otherwise as two hexadecimal digits in lower case. */
  lemma PrintedAs(b: byte)
    ensures EscapedByte(b) == if 32 <= b <= 126 && b != '\"' as int && b != '\\' as int then Written(Plain(b))
                              else Written(Hex(b / 16, b % 16, false, false))
  {
  }

  // ---- Lines ----

  function Decimal(n: nat): (s: seq<byte>)
    ensures s != [] && Digits(s)
  {
    if n < 10 then ['0' as int + n] else Decimal(n / 10) + ['0' as int + n % 10]
  }

  /** What stands in front of the blanks and equals signs: a label and perhaps a level. */
  function Head(name: seq<byte>, at: Option<nat>): seq<byte> {
    name + match at case None => [] case Some(n) => ['@' as int] + Decimal(n)
  }

  function Core(name: seq<byte>, at: Option<nat>, gap: seq<byte>, ps: seq<Piece>): seq<byte>
    requires AllProper(ps)
  {
    Head(name, at) + (gap + (['\"' as int] + WrittenAll(ps)))
  }

  lemma {:induction false} TrimsLead(lead: seq<byte>, s: seq<byte>)
    requires Blanks(lead) && (s != [] ==> !Blank(s[0]))
    ensures TrimLeft(lead + s) == s
  {
    if lead == [] {
      assert lead + s == s;
    } else {
      assert (lead + s)[1..] == lead[1..] + s;
      TrimsLead(lead[1..], s);
    }
  }

  lemma {:induction false} TrimsTrail(s: seq<byte>, trail: seq<byte>)
    requires Blanks(trail) && (s != [] ==> !Blank(s[|s| - 1]))
    ensures TrimRight(s + trail) == s
  {
    if trail == [] {
      assert s + trail == s;
    } else {
      var n := |trail| - 1;
      assert (s + trail)[..|s + trail| - 1] == s + trail[..n];
      TrimsTrail(s, trail[..n]);
    }
  }

  lemma {:induction false} SkipsGap(gap: seq<byte>, s: seq<byte>)
    requires Gaps(gap) && (s != [] ==> !Blank(s[0]) && s[0] != '=' as int)
    ensures SkipBlanks(gap + s) == s
  {
    if gap == [] {
      assert gap + s == s;
    } else {
      assert (gap + s)[1..] == gap[1..] + s;
      SkipsGap(gap[1..], s);
    }
  }

  lemma {:induction false} SkipsName(name: seq<byte>, s: seq<byte>)
    requires Label(name) && (s != [] ==> !LabelByte(s[0]))
    ensures SkipLabel(name + s) == s
  {
    if name == [] {
      assert name + s == s;
    } else {
      assert (name + s)[1..] == name[1..] + s;
      SkipsName(name[1..], s);
    }
  }

  lemma {:induction false} SkipsNumber(ds: seq<byte>, s: seq<byte>)
    requires Digits(ds) && (s != [] ==> !Digit(s[0]))
    ensures SkipDigits(ds + s) == s
  {
    if ds == [] {
      assert ds + s == s;
    } else {
      assert (ds + s)[1..] == ds[1..] + s;
      SkipsNumber(ds[1..], s);
    }
  }

  lemma ReadsDigit(v: nat, s: seq<byte>, acc: nat)
    requires v < 10
    ensures DigitsValue(['0' as int + v] + s, acc) == DigitsValue(s, 10 * acc + v)
  {
    assert (['0' as int + v] + s)[1..] == s;
  }

  lemma {:induction false} ReadsDecimal(n: nat, s: seq<byte>)
    ensures DigitsValue(Decimal(n) + s, 0) == DigitsValue(s, n)
  {
    if n < 10 {
      ReadsDigit(n, s, 0);
    } else {
      var h, v := n / 10, n % 10;
      assert Decimal(n) + s == Decimal(h) + (['0' as int + v] + s);
      ReadsDecimal(h, ['0' as int + v] + s);
      ReadsDigit(v, s, h);
    }
  }

  lemma ReadsLevel(n: nat, s: seq<byte>)
    requires n < 0x1_0000_0000 && (s != [] ==> !Digit(s[0]))
    ensures Atoi(Decimal(n) + s) == n
  {
    var t := Decimal(n) + s;
    assert t[0] == Decimal(n)[0] && Digit(Decimal(n)[0]);
    assert TrimLeft(t) == t;
    ReadsDecimal(n, s);
  }

  /** What a line means, by the kind of its parts. */
  function Meaning(at: Option<nat>, ps: seq<Piece>, level: nat): Parsed
    requires AllProper(ps)
  {
    if at.Some? && at.value > level then Skipped
    else if ps == [] then Malformed(EmptyKeyword)
    else if |ps| > 128 then Malformed(TooBig)
    else Keyword(MeantAll(ps))
  }

  lemma {:induction false} PiecesArePrinted(ps: seq<Piece>)
    requires AllProper(ps)
    ensures forall b <- WrittenAll(ps) :: 32 <= b < 128
    ensures ps == [] <==> WrittenAll(ps) == []
  {
    if ps != [] {
      PieceIsPrinted(ps[0]);
      PiecesArePrinted(ps[1..]);
    }
  }

  lemma PieceIsPrinted(p: Piece)
    requires Proper(p)
    ensures Written(p) != [] && forall b <- Written(p) :: 32 <= b < 128
  {
  }

  lemma ReadsBody(gap: seq<byte>, ps: seq<Piece>)
    requires AllProper(ps) && Gaps(gap)
    ensures Quoted(gap + (['\"' as int] + WrittenAll(ps))) == Meaning(None, ps, 0)
  {
    var w := WrittenAll(ps);
    SkipsGap(gap, ['\"' as int] + w);
    assert (['\"' as int] + w)[1..] == w;
    PiecesArePrinted(ps);
    ReadsPieces(ps, []);
    assert w + [] == w && MeantAll(ps) + [] == MeantAll(ps);
  }

  lemma ReadsLabelled(name: seq<byte>, at: Option<nat>, gap: seq<byte>, ps: seq<Piece>, level: nat)
    requires AllProper(ps) && Gaps(gap)
    requires Label(name) && (at.Some? ==> at.value < 0x1_0000_0000)
    ensures Labelled(Core(name, at, gap, ps), level) == Meaning(at, ps, level)
  {
    var rest := gap + (['\"' as int] + WrittenAll(ps));
    ReadsBody(gap, ps);
    assert rest[0] == if gap == [] then '\"' as int else gap[0];
    CoreIs(name, at, rest);
    if at.Some? {
      ReadsAt(name, at.value, rest, level);
    } else {
      ReadsBare(name, rest, level);
    }
  }

  lemma CoreIs(name: seq<byte>, at: Option<nat>, rest: seq<byte>)
    ensures Head(name, at) + rest
         == name + if at.Some? then ['@' as int] + (Decimal(at.value) + rest) else rest
  {
  }

  lemma ReadsBare(name: seq<byte>, rest: seq<byte>, level: nat)
    requires Label(name) && rest != [] && !LabelByte(rest[0]) && rest[0] != '@' as int
    ensures Labelled(name + rest, level) == Quoted(rest)
  {
    SkipsName(name, rest);
  }

  lemma ReadsAt(name: seq<byte>, n: nat, rest: seq<byte>, level: nat)
    requires Label(name) && n < 0x1_0000_0000 && rest != [] && !Digit(rest[0])
    ensures Labelled(name + (['@' as int] + (Decimal(n) + rest)), level) == if n > level then Skipped else Quoted(rest)
  {
    var tail := ['@' as int] + (Decimal(n) + rest);
    SkipsName(name, tail);
    assert tail[1..] == Decimal(n) + rest;
    ReadsLevel(n, rest);
    SkipsNumber(Decimal(n), rest);
  }

  /** A line may be written with blanks around it, a label, a level, and any blanks and equals signs
      between these and the keyword. It is skipped exactly if its level is above the one asked for;
      otherwise it must hold 1 to 128 bytes, and is read as the keyword that its pieces mean. */
  lemma LineIsRead(lead: seq<byte>, name: seq<byte>, at: Option<nat>, gap: seq<byte>, ps: seq<Piece>,
                   trail: seq<byte>, level: nat)
    requires Blanks(lead) && Blanks(trail) && Label(name)
    requires Gaps(gap)
    requires name == [] && at == None && gap != [] ==> gap[0] == '=' as int
    requires AllProper(ps) && (at.Some? ==> at.value < 0x1_0000_0000)
    ensures Parse(lead + (Core(name, at, gap, ps) + ['\"' as int]) + trail, level)
         == if at.Some? && at.value > level then Skipped
            else if ps == [] then Malformed(EmptyKeyword)
            else if |ps| > 128 then Malformed(TooBig)
            else Keyword(MeantAll(ps))
  {
    CoreIsWhole(name, at, gap, ps);
    ReadsLabelled(name, at, gap, ps, level);
    ReadsInside(lead, Core(name, at, gap, ps), trail, level);
  }

  lemma ReadsInside(lead: seq<byte>, core: seq<byte>, trail: seq<byte>, level: nat)
    requires Blanks(lead) && Blanks(trail) && 0 !in core && core != [] && !Blank(core[0]) && core[0] != '#' as int
    ensures Parse(lead + (core + ['\"' as int]) + trail, level) == Labelled(core, level)
  {
    ReadsOutside(lead, core + ['\"' as int], trail, level);
    assert (core + ['\"' as int])[..|core|] == core;
  }

  lemma CoreIsWhole(name: seq<byte>, at: Option<nat>, gap: seq<byte>, ps: seq<Piece>)
    requires AllProper(ps) && Gaps(gap) && Label(name)
    requires name == [] && at == None && gap != [] ==> gap[0] == '=' as int
    ensures var core := Core(name, at, gap, ps); 0 !in core && core != [] && !Blank(core[0]) && core[0] != '#' as int
  {
    PiecesArePrinted(ps);
    var core, rest := Core(name, at, gap, ps), gap + (['\"' as int] + WrittenAll(ps));
    assert core[0] == if name != [] then name[0] else if at.Some? then '@' as int else rest[0];
  }

  /** What every line is first judged by: an empty one and a comment are skipped, and any other must
      end in a quote. */
  lemma ReadsOutside(lead: seq<byte>, core: seq<byte>, trail: seq<byte>, level: nat)
    requires Blanks(lead) && Blanks(trail) && 0 !in core
    requires core != [] ==> !Blank(core[0]) && !Blank(core[|core| - 1])
    ensures Parse(lead + core + trail, level)
         == if core == [] || core[0] == '#' as int then Skipped
            else if core[|core| - 1] != '\"' as int then Malformed(NoClosingQuote)
            else Labelled(core[..|core| - 1], level)
  {
    var line := lead + core + trail;
    CStringWhole(line);
    if core == [] {
      AllBlank(lead + trail);
      assert line == lead + trail;
    } else {
      assert line == lead + (core + trail);
      TrimsLead(lead, core + trail);
      TrimsTrail(core, trail);
    }
  }

  lemma {:induction false} AllBlank(s: seq<byte>)
    requires Blanks(s)
    ensures TrimLeft(s) == []
  {
    if s != [] {
      AllBlank(s[1..]);
    }
  }
}
