/** The printer and the reader of dictionary files, on their buffers. */
module DictionaryFile {
  import opened Bytes
  import opened Constants
  import opened Dictionary
  import opened Options

  const MAX_LINE := 8192

  // ---- The printer ----

  lemma {:induction false} CStringAt(s: seq<byte>, i: nat)
    requires i <= |s| && 0 !in s[..i] && (i == |s| || s[i] == 0)
    ensures CString(s) == s[..i]
  {
    if i > 0 {
      assert s[1..][..i - 1] == s[1..i] && s[..i] == [s[0]] + s[1..i];
      CStringAt(s[1..], i - 1);
    }
  }

  /** The line a token is printed as, if it is: the buffer never overflows. */
  method Dump(ptr: seq<byte>, isText: bool, open: bool) returns (line: Option<seq<byte>>)
    ensures line == if open && 3 <= |ptr| <= 32
                    then Some(Line(Text(ptr, isText))) else None
    ensures line.Some? ==> |line.value| >= 3 && line.value[0] == line.value[|line.value| - 2] == '\"' as int
                           && line.value[|line.value| - 1] == '\n' as int
  {
    if |ptr| < MIN_AUTO_EXTRA || |ptr| > MAX_AUTO_EXTRA || !open {
      return None;
    }
    var buf := new byte[MAX_AUTO_EXTRA * 4 + 1];
    var pos := Escape(ptr, isText, buf);
    TextIsShort(ptr, isText);
    var printed := Finish(buf, pos, Text(ptr, isText));
    line := Some(printed);
  }

  lemma TextIsShort(ptr: seq<byte>, isText: bool)
    ensures |Text(ptr, isText)| <= |ptr|
  {
    CStringShort(ptr);
  }

  /** The buffer begins with the escaped text; kept folded. */
  ghost predicate Holds(buf: array<byte>, pos: nat, text: seq<byte>)
    reads buf
  {
    forall k | SeeText(k) :: pos <= 4 * |text| && pos <= buf.Length && buf[..pos] == Escaped(text)
  }

  predicate SeeText(k: int) { k == 0 }

  /** The bytes up to the first zero, if the token is text, or all of them. */
  method Escape(ptr: seq<byte>, isText: bool, buf: array<byte>) returns (pos: nat)
    requires buf.Length >= 4 * |ptr| + 1
    modifies buf
    ensures Holds(buf, pos, Text(ptr, isText))
  {
    var i := 0;
    pos := 0;
    while i < |ptr| && !(isText && ptr[i] == 0)
      invariant 0 <= i <= |ptr| && Holds(buf, pos, ptr[..i])
      invariant forall j | 0 <= j < i :: !(isText && ptr[j] == 0)
    {
      assert ptr[..i + 1] == ptr[..i] + [ptr[i]];
      pos := Put(buf, pos, ptr[i], ptr[..i]);
      i := i + 1;
    }
    PrintedText(ptr, isText, i);
  }

  lemma PrintedText(ptr: seq<byte>, isText: bool, i: nat)
    requires i <= |ptr| && (forall j | 0 <= j < i :: !(isText && ptr[j] == 0))
    requires i == |ptr| || (isText && ptr[i] == 0)
    ensures ptr[..i] == Text(ptr, isText)
  {
    if isText {
      CStringAt(ptr, i);
    }
  }

  method Finish(buf: array<byte>, pos: nat, ghost text: seq<byte>) returns (line: seq<byte>)
    requires Holds(buf, pos, text) && 4 * |text| < buf.Length
    modifies buf
    ensures line == Line(text)
  {
    assert SeeText(0);
    buf[pos] := 0;
    EscapedIsPrintable(text);
    assert buf[..][..pos] == Escaped(text);
    CStringAt(buf[..], pos);
    line := [QUOTE] + CString(buf[..]) + [QUOTE, NEWLINE];
  }

  method Put(buf: array<byte>, pos: nat, b: byte, ghost text: seq<byte>) returns (next: nat)
    requires Holds(buf, pos, text) && 4 * |text| + 4 <= buf.Length
    modifies buf
    ensures Holds(buf, next, text + [b])
  {
    assert SeeText(0);
    assert (text + [b])[..|text|] == text;
    if NeedsEscape(b) {
      buf[pos], buf[pos + 1] := BACKSLASH, LOWER_X;
      buf[pos + 2], buf[pos + 3] := HexDigit(b / 16), HexDigit(b % 16);
      next := pos + 4;
    } else {
      buf[pos] := b;
      next := pos + 1;
    }
    assert buf[..next] == Escaped(text) + EscapedByte(b);
  }

  // ---- The reader ----

  /** The text from `l` on, in a buffer whose text ends at `e`. */
  ghost predicate Ends(buf: array<byte>, e: nat)
    reads buf
  {
    e < buf.Length && buf[e] == 0 && 0 !in buf[..e]
  }

  method SkipSpaces(buf: array<byte>, start: nat, ghost e: nat) returns (l: nat)
    requires Ends(buf, e) && start <= e
    ensures start <= l <= e && buf[l..e] == TrimLeft(buf[start..e])
  {
    l := start;
    while IsSpace(buf[l])
      invariant start <= l <= e && TrimLeft(buf[l..e]) == TrimLeft(buf[start..e])
      decreases e - l
    {
      assert buf[l..e][1..] == buf[l + 1..e];
      l := l + 1;
    }
  }

  method DropSpaces(buf: array<byte>, l: nat, e: nat) returns (r: nat)
    requires Ends(buf, e) && l <= e
    ensures l <= r <= e && buf[l..r] == TrimRight(buf[l..e])
  {
    var last: int := e - 1;
    while last >= l && IsSpace(buf[last])
      invariant l - 1 <= last < e && TrimRight(buf[l..last + 1]) == TrimRight(buf[l..e])
    {
      assert buf[l..last + 1][..last - l] == buf[l..last];
      last := last - 1;
    }
    r := last + 1;
  }

  method SkipLabelAt(buf: array<byte>, start: nat, ghost e: nat) returns (l: nat)
    requires Ends(buf, e) && start <= e
    ensures start <= l <= e && buf[l..e] == SkipLabel(buf[start..e])
  {
    l := start;
    while IsAlnum(buf[l]) || buf[l] == UNDERSCORE
      invariant start <= l <= e && SkipLabel(buf[l..e]) == SkipLabel(buf[start..e])
      decreases e - l
    {
      assert buf[l..e][1..] == buf[l + 1..e];
      l := l + 1;
    }
  }

  method SkipDigitsAt(buf: array<byte>, start: nat, ghost e: nat) returns (l: nat)
    requires Ends(buf, e) && start <= e
    ensures start <= l <= e && buf[l..e] == SkipDigits(buf[start..e])
  {
    l := start;
    while IsDigit(buf[l])
      invariant start <= l <= e && SkipDigits(buf[l..e]) == SkipDigits(buf[start..e])
      decreases e - l
    {
      assert buf[l..e][1..] == buf[l + 1..e];
      l := l + 1;
    }
  }

  method SkipBlanksAt(buf: array<byte>, start: nat, ghost e: nat) returns (l: nat)
    requires Ends(buf, e) && start <= e
    ensures start <= l <= e && buf[l..e] == SkipBlanks(buf[start..e])
  {
    l := start;
    while IsSpace(buf[l]) || buf[l] == EQUALS
      invariant start <= l <= e && SkipBlanks(buf[l..e]) == SkipBlanks(buf[start..e])
      decreases e - l
    {
      assert buf[l..e][1..] == buf[l + 1..e];
      l := l + 1;
    }
  }

  lemma OneUnescaped(s: seq<byte>, n: nat, b: byte)
    requires 1 <= n <= |s| && 32 <= s[0] < 128
    requires if s[0] != BACKSLASH then n == 1 && b == s[0]
             else if |s| >= 2 && (s[1] == BACKSLASH || s[1] == QUOTE) then n == 2 && b == s[1]
             else n == 4 && s[1] == LOWER_X && IsHex(s[2]) && IsHex(s[3]) && b == 16 * HexValue(s[2]) + HexValue(s[3])
    ensures Unescaped(s) == Before([b], Unescaped(s[n..]))
  {
  }

  /** The next byte of the text, and how many characters it is written with; none if they are
      malformed. No character past the end of the text is looked at. */
  method NextByte(buf: array<byte>, l: nat, e: nat) returns (n: nat, b: byte, bad: Parsed)
    requires Ends(buf, e) && l < e
    ensures n == 0 ==> bad.Malformed? && Unescaped(buf[l..e]) == bad
    ensures n > 0 ==> l + n <= e && Unescaped(buf[l..e]) == Before([b], Unescaped(buf[l + n..e]))
  {
    ghost var s := buf[l..e];
    n, b, bad := 1, buf[l], Malformed(Unprintable);
    if buf[l] <= 31 || buf[l] >= 128 {
      n := 0;
      return;
    }
    if buf[l] == BACKSLASH {
      if buf[l + 1] == BACKSLASH || buf[l + 1] == QUOTE {
        n, b := 2, buf[l + 1];
      } else {
        n, b, bad := HexByte(buf, l, e);
      }
    }
    if n > 0 {
      OneUnescaped(s, n, b);
      assert s[n..] == buf[l + n..e];
    }
  }

  method HexByte(buf: array<byte>, l: nat, e: nat) returns (n: nat, b: byte, bad: Parsed)
    requires Ends(buf, e) && l < e && buf[l] == BACKSLASH && buf[l + 1] != BACKSLASH && buf[l + 1] != QUOTE
    ensures n == 0 ==> bad.Malformed? && Unescaped(buf[l..e]) == bad
    ensures n > 0 ==> n == 4 && l + 4 <= e && buf[l + 1] == LOWER_X && IsHex(buf[l + 2]) && IsHex(buf[l + 3])
                      && b == 16 * HexValue(buf[l + 2]) + HexValue(buf[l + 3])
  {
    n, b, bad := 0, 0, Malformed(BadEscape);
    if buf[l + 1] != LOWER_X || !IsHex(buf[l + 2]) {
      return;
    }
    if !IsHex(buf[l + 3]) {
      return;
    }
    n, b := 4, 16 * HexValue(buf[l + 2]) + HexValue(buf[l + 3]);
  }

  /** The bytes between the quotes, written to a block as long as the text: it never
      overflows, and no byte past the end of the text is taken for part of it. */
  method Unescape(buf: array<byte>, start: nat, e: nat) returns (r: Parsed)
    requires Ends(buf, e) && start <= e
    ensures r == Unescaped(buf[start..e])
  {
    var data := new byte[e - start];
    var l, klen := start, 0;
    while buf[l] != 0
      invariant start <= l <= e && 0 <= klen <= l - start
      invariant Before(data[..klen], Unescaped(buf[l..e])) == Unescaped(buf[start..e])
      decreases e - l
    {
      ghost var done := data[..klen];
      var n, b, bad := NextByte(buf, l, e);
      if n == 0 {
        return bad;
      }
      data[klen] := b;
      BeforeTwice(done, [b], Unescaped(buf[l + n..e]));
      assert data[..klen + 1] == done + [b];
      l, klen := l + n, klen + 1;
    }
    r := Keyword(data[..klen]);
  }

  /** One line of the file, in place: the closing quote is overwritten by a zero. */
  method ParseLine(buf: array<byte>, level: nat) returns (r: Parsed)
    requires 0 in buf[..]
    modifies buf
    ensures r == Parse(old(buf[..]), level)
  {
    var end := Strlen(buf);
    var l := SkipSpaces(buf, 0, end);
    var rptr := DropSpaces(buf, l, end);
    ghost var t := buf[l..rptr];
    assert t == TrimRight(TrimLeft(CString(buf[..]))) by {
      assert buf[0..end] == buf[..end];
    }
    buf[rptr] := 0;
    assert buf[l..rptr] == t;
    if buf[l] == 0 || buf[l] == HASH {
      return Skipped;
    }
    rptr := rptr - 1;
    if buf[rptr] != QUOTE {
      return Malformed(NoClosingQuote);
    }
    buf[rptr] := 0;
    assert buf[l..rptr] == t[..|t| - 1];
    r := ParseRest(buf, l, rptr, level);
  }

  method Strlen(buf: array<byte>) returns (n: nat)
    requires 0 in buf[..]
    ensures Ends(buf, n) && buf[..n] == CString(buf[..])
  {
    n := 0;
    while buf[n] != 0
      invariant n < buf.Length && 0 !in buf[..n]
      decreases buf.Length - n
    {
      assert buf[..] == buf[..n + 1] + buf[n + 1..];
      n := n + 1;
      assert n < buf.Length;
    }
    CStringAt(buf[..], n);
  }

  method ParseRest(buf: array<byte>, start: nat, rptr: nat, level: nat) returns (r: Parsed)
    requires Ends(buf, rptr) && start <= rptr
    ensures r == Labelled(buf[start..rptr], level)
  {
    var l := SkipLabelAt(buf, start, rptr);
    if buf[l] == AT {
      l := l + 1;
      assert buf[l - 1..rptr][1..] == buf[l..rptr];
      if Atoi(buf[l..rptr]) > level {
        return Skipped;
      }
      l := SkipDigitsAt(buf, l, rptr);
    }
    r := ParseQuoted(buf, l, rptr);
  }

  method ParseQuoted(buf: array<byte>, start: nat, rptr: nat) returns (r: Parsed)
    requires Ends(buf, rptr) && start <= rptr
    ensures r == Quoted(buf[start..rptr])
  {
    var l := SkipBlanksAt(buf, start, rptr);
    if buf[l] != QUOTE {
      return Malformed(NoOpeningQuote);
    }
    l := l + 1;
    assert buf[l - 1..rptr][1..] == buf[l..rptr];
    if buf[l] == 0 {
      return Malformed(EmptyKeyword);
    }
    r := Unescape(buf, l, rptr);
    if r.Keyword? && |r.data| > MAX_DICT_FILE {
      r := Malformed(TooBig);
    }
  }

  // ---- Whole files ----

  /** What a file's lines load: the keywords in order, or the first problem. */
  datatype Loading = Loaded(keywords: seq<seq<byte>>, minLen: nat, maxLen: nat) | Failed(problem: Problem, line: nat)

  function Load(lines: seq<seq<byte>>, level: nat, minLen: nat, maxLen: nat): Loading {
    if lines == [] then Loaded([], minLen, maxLen)
    else
      var before := Load(lines[..|lines| - 1], level, minLen, maxLen);
      if before.Failed? then before
      else
        match Parse(lines[|lines| - 1] + [0], level)
        case Skipped => before
        case Malformed(p) => Failed(p, |lines|)
        case Keyword(data) =>
          Loaded(before.keywords + [data], Min(before.minLen, |data|), Max(before.maxLen, |data|))
  }

  method LoadExtrasFile(lines: seq<seq<byte>>, minLen: nat, maxLen: nat, level: nat) returns (r: Loading)
    requires forall l <- lines :: |l| < 8192
    ensures r == Load(lines, level, minLen, maxLen)
  {
    var buf := new byte[MAX_LINE];
    var extras: seq<seq<byte>>, lo, hi := [], minLen, maxLen;
    for i := 0 to |lines|
      invariant fresh(buf) && buf.Length == MAX_LINE
      invariant Load(lines[..i], level, minLen, maxLen) == Loaded(extras, lo, hi)
    {
      assert lines[..i + 1][..i] == lines[..i];
      Fgets(buf, lines[i]);
      var p := ParseLine(buf, level);
      match p
      case Skipped =>
      case Malformed(problem) =>
        FailsForGood(lines, i + 1, level, minLen, maxLen);
        return Failed(problem, i + 1);
      case Keyword(data) =>
        extras, lo, hi := extras + [data], Min(lo, |data|), Max(hi, |data|);
    }
    assert lines[..|lines|] == lines;
    r := Loaded(extras, lo, hi);
  }

  /** One call that finds the line: what was in the buffer beyond it stays there. */
  method Fgets(buf: array<byte>, line: seq<byte>)
    requires |line| < buf.Length
    modifies buf
    ensures buf[..] == line + [0] + old(buf[|line| + 1..])
    ensures forall level :: Parse(buf[..], level) == Parse(line + [0], level)
  {
    forall k | 0 <= k < |line| { buf[k] := line[k]; }
    buf[|line|] := 0;
    CStringOfPrefix(line, [0] + buf[|line| + 1..]);
    assert buf[..] == line + ([0] + buf[|line| + 1..]);
    CStringOfPrefix(line, [0]);
  }

  lemma {:induction false} CStringOfPrefix(s: seq<byte>, rest: seq<byte>)
    requires rest != [] && rest[0] == 0
    ensures CString(s + rest) == CString(s)
  {
    if s != [] {
      assert (s + rest)[1..] == s[1..] + rest;
      CStringOfPrefix(s[1..], rest);
    }
  }

  lemma {:induction false} FailsForGood(lines: seq<seq<byte>>, i: nat, level: nat, minLen: nat, maxLen: nat)
    requires i <= |lines| && Load(lines[..i], level, minLen, maxLen).Failed?
    ensures Load(lines, level, minLen, maxLen) == Load(lines[..i], level, minLen, maxLen)
  {
    if i < |lines| {
      var front := lines[..|lines| - 1];
      assert front[..i] == lines[..i];
      FailsForGood(front, i, level, minLen, maxLen);
    } else {
      assert lines[..i] == lines;
    }
  }

  lemma ParsesPrinted(text: seq<byte>, level: nat)
    requires 1 <= |text| <= MAX_DICT_FILE
    ensures Parse(Line(text) + [0], level) == Keyword(text)
  {
    ParseInvertsLine(text, level);
    CStringOfPrefix(Line(text), [0]);
  }

  function Lines(tokens: seq<seq<byte>>): seq<seq<byte>> {
    if tokens == [] then [] else Lines(tokens[..|tokens| - 1]) + [Line(tokens[|tokens| - 1])]
  }

  ghost predicate ReadsAs(lines: seq<seq<byte>>, level: nat, j: nat, r: Parsed) {
    j < |lines| && Parse(lines[j] + [0], level) == r
  }

  ghost predicate Passes(lines: seq<seq<byte>>, level: nat, j: nat) {
    j < |lines| && !Parse(lines[j] + [0], level).Malformed?
  }

  /** The places g of the lines that hold a keyword, and these keywords. */
  ghost predicate HeldAt(lines: seq<seq<byte>>, level: nat, g: seq<nat>, keywords: seq<seq<byte>>) {
    && |g| == |keywords|
    && (forall i, j | 0 <= i < j < |g| :: g[i] < g[j])
    && (forall k | 0 <= k < |g| :: ReadsAs(lines, level, g[k], Keyword(keywords[k])))
    && (forall j: nat | j < |lines| && j !in g :: ReadsAs(lines, level, j, Skipped))
  }

  /** A file fails at its first malformed line, counted from 1, with that line's problem; a file
      without one loads the keywords of its lines in their order, and skips the other lines. */
  lemma {:induction false} LoadExactly(lines: seq<seq<byte>>, level: nat, minLen: nat, maxLen: nat)
      returns (g: seq<nat>)
    ensures var r := Load(lines, level, minLen, maxLen);
            && (r.Failed? ==> r.line > 0 && ReadsAs(lines, level, r.line - 1, Malformed(r.problem))
                              && forall j: nat | j < r.line - 1 :: Passes(lines, level, j))
            && (r.Loaded? ==> HeldAt(lines, level, g, r.keywords))
  {
    g := [];
    if lines != [] {
      var n := |lines| - 1;
      var front := lines[..n];
      var before := Load(front, level, minLen, maxLen);
      g := LoadExactly(front, level, minLen, maxLen);
      var last := Parse(lines[n] + [0], level);
      if before.Failed? {
        Farther(lines, n, level, before.line - 1, Malformed(before.problem));
        forall j: nat | j < before.line - 1 ensures Passes(lines, level, j) {
          assert Passes(front, level, j);
        }
      } else {
        HeldInFront(lines, n, level, g, before.keywords);
        if last.Malformed? {
          forall j: nat | j < n ensures Passes(lines, level, j) {
            PassesInFront(front, level, g, before.keywords, j);
            assert front[j] == lines[j];
          }
        } else if last.Keyword? {
          g := OneMoreHeld(lines, n, level, g, before.keywords);
        } else {
          assert ReadsAs(lines, level, n, Skipped);
        }
      }
    }
  }

  lemma Farther(lines: seq<seq<byte>>, n: nat, level: nat, j: nat, r: Parsed)
    requires n <= |lines| && ReadsAs(lines[..n], level, j, r)
    ensures ReadsAs(lines, level, j, r)
  {
  }

  ghost predicate HeldBefore(lines: seq<seq<byte>>, n: nat, level: nat, g: seq<nat>, keywords: seq<seq<byte>>)
    requires n <= |lines|
  {
    && |g| == |keywords|
    && (forall i, j | 0 <= i < j < |g| :: g[i] < g[j])
    && (forall k | 0 <= k < |g| :: g[k] < n && ReadsAs(lines, level, g[k], Keyword(keywords[k])))
    && (forall j: nat | j < n && j !in g :: ReadsAs(lines, level, j, Skipped))
  }

  lemma HeldInFront(lines: seq<seq<byte>>, n: nat, level: nat, g: seq<nat>, keywords: seq<seq<byte>>)
    requires n <= |lines| && HeldAt(lines[..n], level, g, keywords)
    ensures HeldBefore(lines, n, level, g, keywords)
  {
    forall k | 0 <= k < |g| ensures g[k] < n && ReadsAs(lines, level, g[k], Keyword(keywords[k])) {
      Farther(lines, n, level, g[k], Keyword(keywords[k]));
    }
    forall j: nat | j < n && j !in g ensures ReadsAs(lines, level, j, Skipped) {
      Farther(lines, n, level, j, Skipped);
    }
  }

  lemma PassesInFront(lines: seq<seq<byte>>, level: nat, g: seq<nat>, keywords: seq<seq<byte>>, j: nat)
    requires HeldAt(lines, level, g, keywords) && j < |lines|
    ensures Passes(lines, level, j)
  {
    if j in g {
      var k :| 0 <= k < |g| && g[k] == j;
      assert ReadsAs(lines, level, g[k], Keyword(keywords[k]));
    } else {
      assert ReadsAs(lines, level, j, Skipped);
    }
  }

  lemma OneMoreHeld(lines: seq<seq<byte>>, n: nat, level: nat, g: seq<nat>, keywords: seq<seq<byte>>)
      returns (h: seq<nat>)
    requires |lines| == n + 1 && HeldBefore(lines, n, level, g, keywords)
    requires Parse(lines[n] + [0], level).Keyword?
    ensures HeldAt(lines, level, h, keywords + [Parse(lines[n] + [0], level).data])
  {
    h := g + [n];
    var ks := keywords + [Parse(lines[n] + [0], level).data];
    forall k | 0 <= k < |h| ensures ReadsAs(lines, level, h[k], Keyword(ks[k])) {
      if k < |g| {
        assert ReadsAs(lines, level, g[k], Keyword(keywords[k]));
      }
    }
    forall j: nat | j < |lines| && j !in h ensures ReadsAs(lines, level, j, Skipped) {
      assert n in h && j != n && j !in g;
    }
  }

  /** The length range always spans the keywords loaded, and no more than these and the range at
      the start make it. */
  lemma {:induction false} LoadSpans(lines: seq<seq<byte>>, level: nat, minLen: nat, maxLen: nat)
    requires Load(lines, level, minLen, maxLen).Loaded?
    ensures var r := Load(lines, level, minLen, maxLen);
            && r.minLen <= minLen && maxLen <= r.maxLen
            && (r.minLen < minLen ==> exists k <- r.keywords :: |k| == r.minLen)
            && (maxLen < r.maxLen ==> exists k <- r.keywords :: |k| == r.maxLen)
            && forall k <- r.keywords :: r.minLen <= |k| <= r.maxLen && 1 <= |k| <= 128
  {
    if lines != [] {
      LoadSpans(lines[..|lines| - 1], level, minLen, maxLen);
      var line := lines[|lines| - 1] + [0];
      if Parse(line, level).Keyword? {
        KeywordSize(line, level);
      }
    }
  }

  /** A file of printed tokens loads as exactly these tokens, in their order. */
  lemma {:induction false} LoadsWhatWasDumped(tokens: seq<seq<byte>>, level: nat, minLen: nat, maxLen: nat)
    requires forall i | 0 <= i < |tokens| :: 1 <= |tokens[i]| <= 128
    ensures Load(Lines(tokens), level, minLen, maxLen).Loaded?
    ensures Load(Lines(tokens), level, minLen, maxLen).keywords == tokens
  {
    if tokens != [] {
      var n := |tokens| - 1;
      LoadsWhatWasDumped(tokens[..n], level, minLen, maxLen);
      LoadsOneMore(tokens[..n], tokens[n], level, minLen, maxLen);
      assert tokens[..n] + [tokens[n]] == tokens;
    }
  }

  lemma LoadsOneMore(tokens: seq<seq<byte>>, text: seq<byte>, level: nat, minLen: nat, maxLen: nat)
    requires Load(Lines(tokens), level, minLen, maxLen).Loaded? && 1 <= |text| <= MAX_DICT_FILE
    ensures var r := Load(Lines(tokens + [text]), level, minLen, maxLen);
            r.Loaded? && r.keywords == Load(Lines(tokens), level, minLen, maxLen).keywords + [text]
  {
    ParsesPrinted(text, level);
    assert (tokens + [text])[..|tokens|] == tokens;
    var lines := Lines(tokens) + [Line(text)];
    assert Lines(tokens + [text]) == lines;
    assert lines[..|lines| - 1] == Lines(tokens);
  }
}
