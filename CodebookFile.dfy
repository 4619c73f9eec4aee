/** The codebook text file of `save` and `load`: one line `'c':code` per
    symbol, parsed back by stripping, splitting on the first ':' and
    evaluating the quoted symbol. */
module CodebookFile {
  import opened Wrappers
  import opened Alphabet
  import opened Codebooks

  /** `repr` of a one-character string of the alphabet: the character
      between single quotes (none of them needs an escape). */
  function ReprChar(c: char): string
  {
    ['\'', c, '\'']
  }

  /** The line main.py:70 writes for one symbol. */
  function FormatLine(c: char, code: string): (line: string)
    ensures |line| == |code| + 5
    ensures InAlphabet(c) && IsBinary(code) ==>
      line[|line| - 1] == '\n' && forall i :: 0 <= i < |line| - 1 ==> line[i] != '\n'
  {
    ReprChar(c) + ":" + code + "\n"
  }

  /** The lines of the codebook file, one per symbol in `order`, the order
      in which the dict yields its items. */
  function FormatCodebook(cb: Codebook, order: seq<char>): (lines: seq<string>)
    requires forall i :: 0 <= i < |order| ==> order[i] in cb
    ensures |lines| == |order|
    ensures forall i :: 0 <= i < |order| ==> lines[i] == FormatLine(order[i], cb[order[i]])
  {
    if order == [] then []
    else FormatCodebook(cb, order[..|order| - 1]) + [FormatLine(order[|order| - 1], cb[order[|order| - 1]])]
  }

  /** The ASCII characters `str.strip` removes: space, tab, newline,
      carriage return, vertical tab, form feed and the separators 0x1C-0x1F. */
  predicate IsSpace(c: char) {
    c == ' ' || c == '\t' || c == '\n' || c == '\r' || c == '\U{B}' || c == '\U{C}' || '\U{1C}' <= c <= '\U{1F}'
  }

  function StripLeft(s: string): (r: string)
    ensures r == [] || !IsSpace(r[0])
    ensures |r| <= |s| && r == s[|s| - |r|..]
    ensures forall i :: 0 <= i < |s| - |r| ==> IsSpace(s[i])
  {
    if s != [] && IsSpace(s[0]) then StripLeft(s[1..]) else s
  }

  function StripRight(s: string): (r: string)
    ensures r == [] || !IsSpace(r[|r| - 1])
    ensures r <= s
    ensures forall i :: |r| <= i < |s| ==> IsSpace(s[i])
  {
    if s != [] && IsSpace(s[|s| - 1]) then StripRight(s[..|s| - 1]) else s
  }

  /** `str.strip()`. */
  function Strip(s: string): (r: string)
    ensures |r| <= |s|
    ensures r == [] || (!IsSpace(r[0]) && !IsSpace(r[|r| - 1]))
    ensures (forall i :: 0 <= i < |s| ==> IsSpace(s[i])) ==> r == []
    ensures s != [] && !IsSpace(s[0]) && !IsSpace(s[|s| - 1]) ==> r == s
  {
    StripRight(StripLeft(s))
  }

  /** The index of the first ':' of `s`, if any. */
  function FirstColon(s: string): (r: Option<nat>)
    ensures r.Some? ==> r.value < |s| && s[r.value] == ':' && ':' !in s[..r.value]
    ensures r.None? ==> ':' !in s
  {
    if s == [] then None
    else if s[0] == ':' then Some(0)
    else match FirstColon(s[1..])
      case None => None
      case Some(i) => Some(i + 1)
  }

  /** `ast.literal_eval` restricted to a quoted alphabet character. */
  function LiteralChar(lit: string): (r: Option<char>)
    ensures r.Some? ==> lit == ReprChar(r.value) && InAlphabet(r.value)
    ensures forall c :: InAlphabet(c) && lit == ReprChar(c) ==> r == Some(c)
  {
    if |lit| == 3 && lit[0] == '\'' && lit[2] == '\'' && InAlphabet(lit[1]) then Some(lit[1]) else None
  }

  /** Line 84-85 for one line: the symbol and the code, or why the line
      cannot be read. */
  function ParseLine(line: string): (r: Result<(char, string)>)
    ensures r == Failure(MissingColon) <==> ':' !in Strip(line)
    ensures r.Success? <==> SymbolPrefix(Strip(line))
    ensures r.Success? ==> InAlphabet(r.value.0) && Strip(line) == ReprChar(r.value.0) + ":" + r.value.1
    ensures r.Failure? && ':' in Strip(line) ==> r.error == BadSymbol
  {
    var s := Strip(line);
    ReprPrefix(s);
    match FirstColon(s)
    case None => Failure(MissingColon)
    case Some(i) =>
      match LiteralChar(s[..i])
      case None => Failure(BadSymbol)
      case Some(c) =>
        SplitAtColon(s, i);
        Success((c, s[i + 1..]))
  }

  lemma SplitAtColon(s: string, i: nat)
    requires i < |s| && s[i] == ':'
    ensures s == s[..i] + ":" + s[i + 1..]
  {
    assert s[..i] + [s[i]] == s[..i + 1];
  }

  /** `s` starts with a quoted alphabet symbol and a colon. */
  predicate SymbolPrefix(s: string) {
    |s| >= 4 && s[0] == '\'' && InAlphabet(s[1]) && s[2] == '\'' && s[3] == ':'
  }

  /** Such a line has its first colon right after the symbol, and the
      text before it reads as that symbol. */
  lemma ReprPrefix(s: string)
    ensures SymbolPrefix(s) ==> FirstColon(s) == Some(3) && s[..3] == ReprChar(s[1]) && LiteralChar(s[..3]) == Some(s[1])
  {
    if SymbolPrefix(s) {
      assert s[1..][1..][1..] == s[3..];
    }
  }

  /** The codebook lines 81-86 build from the file's lines: each line
      adds (or replaces) one symbol; the first unreadable line stops
      the load. */
  function ParseLines(lines: seq<string>): (r: Result<Codebook>)
    ensures r.Success? ==> forall c :: c in r.value ==> InAlphabet(c)
    ensures r.Success? ==> |r.value| <= |lines|
  {
    if lines == [] then Success(map[])
    else
      match ParseLines(lines[..|lines| - 1])
      case Failure(e) => Failure(e)
      case Success(cb) =>
        match ParseLine(lines[|lines| - 1])
        case Failure(e) => Failure(e)
        case Success(entry) => Success(cb[entry.0 := entry.1])
  }

  /** Lines 81-86: fill the codebook line by line. */
  method LoadCodebook(lines: seq<string>) returns (r: Result<Codebook>)
    ensures r == ParseLines(lines)
  {
    r := Success(map[]);
    var i := 0;
    while i < |lines| && r.Success?
      invariant 0 <= i <= |lines|
      invariant ParseLines(lines[..i]) == r
    {
      var entry := ParseLine(lines[i]);
      ParseLinesStep(lines, i, r.value);
      if entry.Failure? {
        r := Failure(entry.error);
      } else {
        r := Success(r.value[entry.value.0 := entry.value.1]);
      }
      i := i + 1;
    }
    if r.Failure? {
      FailureStops(lines, i);
    } else {
      assert lines[..i] == lines;
    }
  }

  /** One more line after a prefix that loaded into `cb`. */
  lemma ParseLinesStep(lines: seq<string>, i: nat, cb: Codebook)
    requires i < |lines| && ParseLines(lines[..i]) == Success(cb)
    ensures ParseLine(lines[i]).Failure? ==> ParseLines(lines[..i + 1]) == Failure(ParseLine(lines[i]).error)
    ensures ParseLine(lines[i]).Success? ==>
      ParseLines(lines[..i + 1]) == Success(cb[ParseLine(lines[i]).value.0 := ParseLine(lines[i]).value.1])
  {
    assert lines[..i + 1][..i] == lines[..i];
  }

  /** Once a prefix of the lines fails to load, the whole file fails the same way. */
  lemma {:induction false} FailureStops(lines: seq<string>, k: nat)
    requires k <= |lines| && ParseLines(lines[..k]).Failure?
    ensures ParseLines(lines) == ParseLines(lines[..k])
    decreases |lines| - k
  {
    if k < |lines| {
      assert lines[..k + 1][..k] == lines[..k];
      FailureStops(lines, k + 1);
    } else {
      assert lines[..k] == lines;
    }
  }

  /** A written line reads back as the symbol and code that produced it. */
  lemma ParseFormatLine(c: char, code: string)
    requires InAlphabet(c) && IsBinary(code)
    ensures ParseLine(FormatLine(c, code)) == Success((c, code))
  {
    var body := ReprChar(c) + ":" + code;
    StripFormatLine(c, code);
    SymbolAndCode(c, code);
    var r := ParseLine(FormatLine(c, code));
    SymbolAndCode(r.value.0, r.value.1);
  }

  /** The symbol and the code can be read off a stripped line. */
  lemma SymbolAndCode(c: char, code: string)
    ensures SymbolPrefix(ReprChar(c) + ":" + code) <==> InAlphabet(c)
    ensures (ReprChar(c) + ":" + code)[1] == c && (ReprChar(c) + ":" + code)[4..] == code
  {
  }

  /** Stripping a written line removes exactly its newline. */
  lemma StripFormatLine(c: char, code: string)
    requires IsBinary(code)
    ensures Strip(FormatLine(c, code)) == ReprChar(c) + ":" + code
  {
    var body := ReprChar(c) + ":" + code;
    var line := FormatLine(c, code);
    assert line == body + "\n";
    NothingToStripLeft(line);
    NewlineStripped(body);
    assert body[|body| - 1] == if code == [] then ':' else code[|code| - 1];
    NothingToStripRight(body);
  }

  lemma NothingToStripLeft(s: string)
    requires s != [] && !IsSpace(s[0])
    ensures StripLeft(s) == s
  {
  }

  lemma NothingToStripRight(s: string)
    requires s != [] && !IsSpace(s[|s| - 1])
    ensures StripRight(s) == s
  {
  }

  lemma NewlineStripped(s: string)
    ensures StripRight(s + "\n") == StripRight(s)
  {
    assert (s + "\n")[..|s|] == s;
  }

  /** Writing the codebook and reading it back gives the same codebook,
      whatever order the dict yields its items in. */
  lemma {:induction false} CodebookRoundTrip(cb: Codebook, order: seq<char>)
    requires forall c :: c in cb ==> InAlphabet(c)
    requires AllBinary(cb)
    requires forall c :: c in cb <==> c in order
    ensures ParseLines(FormatCodebook(cb, order)) == Success(cb)
  {
    assert forall i :: 0 <= i < |order| ==> order[i] in cb by {
      forall i | 0 <= i < |order| ensures order[i] in cb {
        assert order[i] in order;
      }
    }
    PrefixRoundTrip(cb, order);
    RestrictAll(cb, order);
  }

  lemma RestrictAll(cb: Codebook, order: seq<char>)
    requires forall c :: c in cb <==> c in order
    ensures (map c | c in order :: cb[c]) == cb
  {
  }

  lemma {:induction false} PrefixRoundTrip(cb: Codebook, order: seq<char>)
    requires forall c :: c in cb ==> InAlphabet(c)
    requires AllBinary(cb)
    requires forall i :: 0 <= i < |order| ==> order[i] in cb
    ensures ParseLines(FormatCodebook(cb, order)) == Success(map c | c in order :: cb[c])
  {
    if order != [] {
      var init, last := order[..|order| - 1], order[|order| - 1];
      PrefixRoundTrip(cb, init);
      var lines := FormatCodebook(cb, order);
      assert lines[..|lines| - 1] == FormatCodebook(cb, init);
      ParseFormatLine(last, cb[last]);
      RestrictExtend(cb, order);
    }
  }

  lemma RestrictExtend(cb: Codebook, order: seq<char>)
    requires order != [] && forall i :: 0 <= i < |order| ==> order[i] in cb
    ensures (map c | c in order[..|order| - 1] :: cb[c])[order[|order| - 1] := cb[order[|order| - 1]]]
         == map c | c in order :: cb[c]
  {
    var init, last := order[..|order| - 1], order[|order| - 1];
    var before, after := map c | c in init :: cb[c], map c | c in order :: cb[c];
    assert order == init + [last];
    assert forall c :: c in order <==> c in init || c == last;
    assert before[last := cb[last]].Keys == after.Keys;
  }
}
