/**
  The token kinds of `_lexer.py`, their lookahead recognizers (`starts_here`,
  with each `CHECK` regular expression written out as explicit character
  tests over the same lookahead window) and their parsers (`_parse`, wrapped
  by `Token.__init__`, which records the span).
 */
module Tokens {
  import opened Results
  import opened TextCursor
  import opened TextUtil
  import opened Scanners

  /** The search, replace and options parts of a transformation. */
  datatype Transform = Transform(search: string, replace: string, options: string)

  /** `search/replace/options}`: the parts as they are written after the first `/` of a transformation. */
  function TransformText(t: Transform): string {
    (t.search + "/") + ((t.replace + "/") + (t.options + "}"))
  }

  /**
    What the scans leave in the parts: search and replace hold no unescaped
    `/` and do not end in a backslash (which would have escaped the `/` after
    them), and the options are balanced inside the closing brace.
   */
  predicate PartsOk(t: Transform) {
    StopBody(t.search, '/', "/") && StopBody(t.replace, '/', "/") && BraceBody(t.options, 1)
  }

  /** A token with the span [start, end) of input consumed to produce it. */
  datatype Token =
    | TabStop(start: Position, end: Position, number: nat, initialText: string)
    | Visual(start: Position, end: Position, alternativeText: string, transform: Option<Transform>)
    | Transformation(start: Position, end: Position, number: nat, search: string, replace: string, options: string)
    | Mirror(start: Position, end: Position, number: nat)
    | EscapeChar(start: Position, end: Position, initialText: string)
    | ShellCode(start: Position, end: Position, code: string)
    | PythonCode(start: Position, end: Position, code: string, indent: string)
    | VimLCode(start: Position, end: Position, code: string)
    | EndOfText(start: Position, end: Position)

  /** The two ways tokenizing fails outright. */
  datatype LexError =
    | MalformedVisual   // a `${VISUAL/...}` transformation ran out of input (an unescaped '/', most likely)
    | EmptyPythonCode   // `lines[0]` of no lines, for empty Python code under a non-empty indent

  /** What a token parser does: produce a token, run out of input, or fail. */
  datatype Outcome = Parsed(token: Token, rest: Cursor) | Exhausted(at: Cursor) | Fatal(error: LexError)

  /** Every parser's span discipline: a token spans exactly the input it consumed, at least one character; running out leaves the cursor at the end. */
  predicate Spans(c: Cursor, o: Outcome) {
    match o
    case Parsed(t, r) => SameStream(c, r) && c.idx < r.idx && t.start == c.Pos() && t.end == r.Pos()
    case Exhausted(at) => SameStream(c, at) && at.idx == |c.text|
    case Fatal(_) => true
  }

  // ---------------------------------------------------------------------------
  // Recognizers

  /** The characters a top-level backslash escapes. */
  const DefaultEscapable := "{}\\$`"

  /** The window the `$`-forms are matched against. */
  const Window := 10

  /** `^\$\{\d+` followed by one of `follow`, inside window `w`. */
  predicate DollarBraceDigitsThen(w: string, follow: string) {
    |w| >= 2 && w[0] == '$' && w[1] == '{' &&
    var k := DigitRun(w, 2);
    k >= 1 && 2 + k < |w| && w[2 + k] in follow
  }

  predicate EscapeCharStartsHere(c: Cursor) {
    EscapeStartsHere(c, DefaultEscapable)
  }

  /** `^\$\{VISUAL[:}/]` on the next ten characters. */
  predicate VisualStartsHere(c: Cursor) {
    var w := PeekN(c, Window);
    |w| >= 9 && w[..8] == "${VISUAL" && w[8] in ":}/"
  }

  /** `^\$\{\d+/` on the next ten characters. */
  predicate TransformationStartsHere(c: Cursor) {
    DollarBraceDigitsThen(PeekN(c, Window), "/")
  }

  /** `^\$\{\d+[:}]` on the next ten characters. */
  predicate TabStopStartsHere(c: Cursor) {
    DollarBraceDigitsThen(PeekN(c, Window), ":}")
  }

  /** `^\$\d+` on the next ten characters. */
  predicate MirrorStartsHere(c: Cursor) {
    var w := PeekN(c, Window);
    |w| >= 2 && w[0] == '$' && IsDigit(w[1])
  }

  /** `\s`: ASCII whitespace. */
  predicate IsSpace(ch: char) {
    ch in " \t\n\r\U{B}\U{C}"
  }

  /** `^`!p\s` on the next four characters. */
  predicate PythonCodeStartsHere(c: Cursor) {
    var w := PeekN(c, 4);
    |w| == 4 && w[..3] == "`!p" && IsSpace(w[3])
  }

  /** `^`!v\s` on the next four characters. */
  predicate VimLCodeStartsHere(c: Cursor) {
    var w := PeekN(c, 4);
    |w| == 4 && w[..3] == "`!v" && IsSpace(w[3])
  }

  /** `peek(1) == '`'`. */
  predicate ShellCodeStartsHere(c: Cursor) {
    PeekChar(c) == Some('`')
  }

  // ---------------------------------------------------------------------------
  // Facts the parsers need about their recognizers

  lemma WindowAt(c: Cursor, n: nat, i: nat)
    requires i < |PeekN(c, n)|
    ensures c.idx + i < |c.text| && PeekN(c, n)[i] == c.text[c.idx + i]
  {
  }

  /** The maximal digit run is determined by where the digits stop. */
  lemma {:induction false} DigitRunEnds(s: string, i: nat, j: nat)
    requires i <= j <= |s| && AllDigits(s[i..j]) && (j == |s| || !IsDigit(s[j]))
    ensures DigitRun(s, i) == j - i
    decreases j - i
  {
    if i < j {
      assert s[i] == s[i..j][0];
      assert s[i + 1..j] == s[i..j][1..];
      DigitRunEnds(s, i + 1, j);
    }
  }

  /** A digit run that ends inside the window is the digit run of the text. */
  lemma WindowDigitRun(c: Cursor, n: nat, i: nat)
    requires i < |PeekN(c, n)|
    requires i + DigitRun(PeekN(c, n), i) < |PeekN(c, n)|
    ensures DigitRun(c.text, c.idx + i) == DigitRun(PeekN(c, n), i)
  {
    DigitRunWithin(c.text, c.idx, PeekN(c, n), i);
  }

  /** The digit run of a piece of `t` that ends inside the piece is the digit run of `t`. */
  lemma DigitRunWithin(t: string, a: nat, w: string, i: nat)
    requires a + |w| <= |t| && w == t[a..a + |w|]
    requires i < |w| && i + DigitRun(w, i) < |w|
    ensures DigitRun(t, a + i) == DigitRun(w, i)
  {
    var k := DigitRun(w, i);
    assert forall j :: 0 <= j < |w| ==> w[j] == t[a + j];
    assert t[a + i..a + i + k] == w[i..i + k];
    DigitRunEnds(t, a + i, a + i + k);
  }

  /** `_parse_number` stops where the maximal digit run of the text stops. */
  lemma ParseNumberRun(c: Cursor)
    requires c.idx < |c.text| && IsDigit(c.text[c.idx])
    ensures ParseNumber(c).1.idx == c.idx + DigitRun(c.text, c.idx)
  {
    var r := ParseNumber(c);
    DigitsReadRun(c.text, c.idx, r.1.idx, r.0);
  }

  /** After `${` and the digits of a `$`-form that the window recognized. */
  lemma DollarBraceDigitsAt(c: Cursor, follow: string)
    requires DollarBraceDigitsThen(PeekN(c, Window), follow)
    ensures c.idx + 2 < |c.text| && c.text[c.idx] == '$' && c.text[c.idx + 1] == '{' && IsDigit(c.text[c.idx + 2])
    ensures DigitRun(c.text, c.idx + 2) == DigitRun(PeekN(c, Window), 2) >= 1
    ensures c.idx + 2 + DigitRun(c.text, c.idx + 2) < |c.text|
    ensures c.text[c.idx + 2 + DigitRun(c.text, c.idx + 2)] in follow
  {
    DollarDigitsWithin(c.text, c.idx, PeekN(c, Window), follow);
  }

  /** A `$`-form recognized in a piece of `t` is there in `t`, with the same digit run. */
  lemma DollarDigitsWithin(t: string, a: nat, w: string, follow: string)
    requires a + |w| <= |t| && w == t[a..a + |w|]
    requires DollarBraceDigitsThen(w, follow)
    ensures a + 2 < |t| && t[a] == '$' && t[a + 1] == '{' && IsDigit(t[a + 2])
    ensures DigitRun(t, a + 2) == DigitRun(w, 2) >= 1
    ensures a + 2 + DigitRun(t, a + 2) < |t|
    ensures t[a + 2 + DigitRun(t, a + 2)] in follow
  {
    assert forall j :: 0 <= j < |w| ==> w[j] == t[a + j];
    assert w[2..2 + DigitRun(w, 2)][0] == w[2];
    DigitRunWithin(t, a, w, 2);
  }

  // ---------------------------------------------------------------------------
  // Parsers

  /** `EscapeCharToken._parse`: the backslash and the escaped character; the latter is the token's text. */
  function ParseEscapeChar(c: Cursor): (o: Outcome)
    requires EscapeCharStartsHere(c)
    ensures Spans(c, o) && o.Parsed? && o.token.EscapeChar?
    ensures o.rest.idx == c.idx + 2 && c.text[c.idx] == '\\'
    ensures o.token.initialText == [c.text[c.idx + 1]] && c.text[c.idx + 1] in DefaultEscapable
  {
    EscapeAt(c, DefaultEscapable);
    var a := Next(c);
    var b := Next(a.rest);
    Parsed(EscapeChar(c.Pos(), b.rest.Pos(), [b.value]), b.rest)
  }

  /** `s` appears in `text` just before index `i`. */
  predicate TextBefore(text: string, i: nat, s: string) {
    |s| <= i <= |text| && text[i - |s|..i] == s
  }

  /** `${` and the number of a recognized `$`-form, leaving the cursor on the character after the digits. */
  function DollarNumber(c: Cursor, follow: string): (r: (nat, Cursor))
    requires DollarBraceDigitsThen(PeekN(c, Window), follow)
    ensures DollarRead(c, r.1, r.0, follow)
  {
    DollarBraceDigitsAt(c, follow);
    var c1 := Skip(c, 2);
    ParseNumberRun(c1);
    ParseNumber(c1)
  }

  /**
    A `$`-form's number read from `c` to `r`: `${`, then the maximal run of
    digits, whose value is `n`, and the cursor left on a character of `follow`.
   */
  predicate DollarRead(c: Cursor, r: Cursor, n: nat, follow: string) {
    && SameStream(c, r) && c.idx + 2 <= |c.text|
    && c.text[c.idx] == '$' && c.text[c.idx + 1] == '{'
    && DigitsRead(c.text, c.idx + 2, r.idx, n)
    && r.idx < |c.text| && c.text[r.idx] in follow
  }

  /** A brace scan that started at or after `c` ends after `c` and leaves its body and brace just before its end. */
  lemma BraceFoundAfter(c: Cursor, c3: Cursor, v: string, c4: Cursor)
    requires SameStream(c, c3) && c.idx <= c3.idx && BraceFound(c3, 1, v, c4)
    ensures SameStream(c, c4) && c.idx < c4.idx
    ensures TextBefore(c.text, c4.idx, v + "}") && BraceBody(v, 1)
  {
  }

  /** Where a tab stop's default text begins: after the digits, and after the `:` when one follows them. */
  function TabStopBodyStart(c: Cursor): (i: nat)
    requires TabStopStartsHere(c)
    ensures i <= |c.text|
  {
    var k := DollarNumber(c, ":}").1.idx;
    if c.text[k] == ':' then k + 1 else k
  }

  /** `TabStopToken._parse`: `${`, the number, an optional `:`, then the brace scan for the default text. */
  function ParseTabStop(c: Cursor): (o: Outcome)
    requires TabStopStartsHere(c)
    ensures Spans(c, o) && !o.Fatal?
    ensures o.Parsed? ==> o.token.TabStop?
    ensures o.Parsed? ==> o.token.number == DollarNumber(c, ":}").0
    ensures o.Parsed? ==> BraceBody(o.token.initialText, 1)
    ensures o.Parsed? ==> TextBefore(c.text, o.rest.idx, o.token.initialText + "}")
    ensures o.Parsed? ==> o.rest.idx == TabStopBodyStart(c) + |o.token.initialText| + 1
    ensures o.Exhausted? <==> BraceDepth(c.text[TabStopBodyStart(c)..], 1).Some?
  {
    var (n, c2) := DollarNumber(c, ":}");
    var c3 := SkipIf(c2, ":");
    assert c3.idx == TabStopBodyStart(c);
    TabStopAfter(c, n, c3)
  }

  /** The default text of `TabStopToken._parse`, from `c3` on; running out of input here ends the text. */
  function TabStopAfter(c: Cursor, n: nat, c3: Cursor): (o: Outcome)
    requires SameStream(c, c3) && c.idx < c3.idx
    ensures Spans(c, o) && !o.Fatal?
    ensures o.Parsed? ==> o.token.TabStop? && o.token.number == n
    ensures o.Parsed? ==> BraceBody(o.token.initialText, 1)
    ensures o.Parsed? ==> TextBefore(c.text, o.rest.idx, o.token.initialText + "}")
    ensures o.Parsed? ==> o.rest.idx == c3.idx + |o.token.initialText| + 1
    ensures o.Exhausted? <==> BraceDepth(c.text[c3.idx..], 1).Some?
  {
    TillClosingBraceMissing(c3);
    match TillClosingBrace(c3)
    case EndOfInput(at) => Exhausted(at)
    case Scanned(txt, c4) =>
      BraceFoundAfter(c, c3, txt, c4);
      Parsed(TabStop(c.Pos(), c4.Pos(), n, txt), c4)
  }

  /** `MirrorToken._parse`: `$` and the number. */
  function ParseMirror(c: Cursor): (o: Outcome)
    requires MirrorStartsHere(c)
    ensures Spans(c, o) && o.Parsed? && o.token.Mirror?
    ensures MirrorRead(c, o.rest, o.token.number)
  {
    WindowAt(c, Window, 0);
    WindowAt(c, Window, 1);
    var c1 := Next(c).rest;
    var (n, c2) := ParseNumber(c1);
    Parsed(Mirror(c.Pos(), c2.Pos(), n), c2)
  }

  /** A mirror read from `c` to `r`: `$`, then the maximal run of digits after it, whose value is `n`. */
  predicate MirrorRead(c: Cursor, r: Cursor, n: nat) {
    SameStream(c, r) && c.idx < |c.text| && c.text[c.idx] == '$' && DigitsRead(c.text, c.idx + 1, r.idx, n)
  }

  /** The search and replace parts, each up to an unescaped `/`, then the options up to the closing brace. */
  function TransformParts(c: Cursor): (r: Scan<Transform>)
    ensures r.EndOfInput? ==> SameStream(c, r.at) && r.at.idx == |c.text|
    ensures r.Scanned? ==> SameStream(c, r.rest) && c.idx < r.rest.idx
    ensures r.Scanned? ==> PartsOk(r.value)
    ensures r.Scanned? ==> PartsRead(c.text, c.idx, r.rest.idx, r.value)
  {
    match ScanTill(c, "/")
    case EndOfInput(at) => EndOfInput(at)
    case Scanned((search, _), c1) => PartsAfterSearch(c, search, c1)
  }

  /** `TransformParts` once the search part `search` and its `/` have been read from `c`, leaving `c1`. */
  function PartsAfterSearch(c: Cursor, search: string, c1: Cursor): (r: Scan<Transform>)
    requires SameStream(c, c1) && c.idx < c1.idx <= |c.text|
    requires c.text[c.idx..c1.idx] == search + "/" && StopBody(search, '/', "/")
    ensures r.EndOfInput? ==> SameStream(c, r.at) && r.at.idx == |c.text|
    ensures r.Scanned? ==> SameStream(c, r.rest) && c.idx < r.rest.idx
    ensures r.Scanned? ==> PartsOk(r.value)
    ensures r.Scanned? ==> PartsRead(c.text, c.idx, r.rest.idx, r.value)
  {
    match ScanTill(c1, "/")
    case EndOfInput(at) => EndOfInput(at)
    case Scanned((replace, _), c2) =>
      match TillClosingBrace(c2)
      case EndOfInput(at) => EndOfInput(at)
      case Scanned(options, c3) =>
        PartsJoin(c.text, c.idx, c1.idx, c2.idx, c3.idx, search, replace, options);
        Scanned(Transform(search, replace, options), c3)
  }

  /** The parts `t` are exactly the text from `i` to `j`, written out. */
  predicate PartsRead(text: string, i: nat, j: nat, t: Transform) {
    j == i + |TransformText(t)| && j <= |text| && text[i..j] == TransformText(t)
  }

  /** The three scanned stretches of the parts, side by side, are the parts written out. */
  lemma PartsJoin(t: string, a: nat, b: nat, d: nat, e: nat, s1: string, s2: string, s3: string)
    requires a <= b <= d <= e <= |t|
    requires t[a..b] == s1 + "/" && t[b..d] == s2 + "/" && t[d..e] == s3 + "}"
    ensures PartsRead(t, a, e, Transform(s1, s2, s3))
  {
    assert t[a..e] == t[a..b] + (t[b..d] + t[d..e]);
  }

  /** `TransformationToken._parse`: `${`, the number, `/`, then the transformation parts. */
  function ParseTransformation(c: Cursor): (o: Outcome)
    requires TransformationStartsHere(c)
    ensures Spans(c, o) && !o.Fatal?
    ensures o.Parsed? ==> o.token.Transformation? && o.token.number == DollarNumber(c, "/").0
    ensures o.Parsed? ==> PartsOk(Transform(o.token.search, o.token.replace, o.token.options))
    ensures o.Parsed? ==> PartsRead(c.text, TransformationBodyStart(c), o.rest.idx,
                                    Transform(o.token.search, o.token.replace, o.token.options))
  {
    var (n, c2) := DollarNumber(c, "/");
    var c3 := Next(c2).rest;
    assert c3.idx == TransformationBodyStart(c);
    TransformationAfter(c, n, c3)
  }

  /** Where a transformation's search part begins: after the digits and the `/`. */
  function TransformationBodyStart(c: Cursor): (i: nat)
    requires TransformationStartsHere(c)
    ensures c.idx < i <= |c.text|
  {
    DollarNumber(c, "/").1.idx + 1
  }

  /** The transformation parts of `TransformationToken._parse`, after the `/`; running out of input here ends the text. */
  function TransformationAfter(c: Cursor, n: nat, c3: Cursor): (o: Outcome)
    requires SameStream(c, c3) && c.idx < c3.idx
    ensures Spans(c, o) && !o.Fatal?
    ensures o.Parsed? ==> o.token.Transformation? && o.token.number == n
    ensures o.Parsed? ==> PartsOk(Transform(o.token.search, o.token.replace, o.token.options))
    ensures o.Parsed? ==> PartsRead(c.text, c3.idx, o.rest.idx, Transform(o.token.search, o.token.replace, o.token.options))
  {
    match TransformParts(c3)
    case EndOfInput(at) => Exhausted(at)
    case Scanned(tr, c4) =>
      Parsed(Transformation(c.Pos(), c4.Pos(), n, tr.search, tr.replace, tr.options), c4)
  }

  /** Unescaping keeps the last character, so it keeps (or avoids) a trailing backslash. */
  lemma UnescapeTrailing(s: string)
    ensures EndsWithBackslash(Unescape(s)) <==> EndsWithBackslash(s)
  {
  }

  /** The alternative text a scan for `/` or `}` returns ends in no backslash, before and after unescaping. */
  lemma AlternativeClean(c: Cursor, raw: string, stop: char, r: Cursor)
    requires ScanTill(c, "/}") == Scanned((raw, stop), r)
    ensures !EndsWithBackslash(Unescape(raw))
  {
    assert '\\' !in "/}";
    UnescapeTrailing(raw);
  }

  /** `${VISUAL` and an optional `:`. */
  function VisualHead(c: Cursor): (r: Cursor)
    requires VisualStartsHere(c)
    ensures SameStream(c, r) && c.idx + 8 <= r.idx <= c.idx + 9
    ensures r.idx == c.idx + 9 <==> c.text[c.idx + 8] == ':'
  {
    WindowAt(c, Window, 8);
    SkipIf(Skip(c, 8), ":")
  }

  /**
    `VisualToken._parse`: the eight characters `${VISUAL`, an optional `:`,
    the alternative text up to an unescaped `/` or `}` (then unescaped), and a
    transformation when it was a `/`.
   */
  function ParseVisual(c: Cursor): (o: Outcome)
    requires VisualStartsHere(c)
    ensures Spans(c, o)
    ensures o.Fatal? ==> o.error == MalformedVisual
    ensures o.Parsed? ==> o.token.Visual? && !EndsWithBackslash(o.token.alternativeText)
    ensures o.Parsed? && o.token.transform.Some? ==> PartsOk(o.token.transform.value)
    ensures VisualRead(VisualHead(c), o)
  {
    VisualAfterHead(c, VisualHead(c))
  }

  /**
    What the visual parser makes of the text after its head at `c2`. The
    alternative text is the scan up to an unescaped `/` or `}`, unescaped. A
    transformation follows exactly when that scan stopped at `/`, and its
    parts are the text after that `/`. Running out of input before the stop
    ends the text; running out inside the transformation is fatal.
   */
  predicate VisualRead(c2: Cursor, o: Outcome) {
    var s := ScanTill(c2, "/}");
    && (o.Exhausted? <==> s.EndOfInput?)
    && (o.Fatal? <==> s.Scanned? && s.value.1 == '/' && TransformParts(s.rest).EndOfInput?)
    && (o.Parsed? ==>
          && s.Scanned? && o.token.Visual?
          && o.token.alternativeText == Unescape(s.value.0)
          && (o.token.transform.Some? <==> s.value.1 == '/')
          && (o.token.transform.None? ==> o.rest == s.rest)
          && (o.token.transform.Some? ==> PartsRead(c2.text, s.rest.idx, o.rest.idx, o.token.transform.value)))
  }

  /** `VisualToken._parse` after `${VISUAL` and the optional `:`, which end at `c2`. */
  function VisualAfterHead(c: Cursor, c2: Cursor): (o: Outcome)
    requires SameStream(c, c2) && c.idx < c2.idx
    ensures Spans(c, o)
    ensures o.Fatal? ==> o.error == MalformedVisual
    ensures o.Parsed? ==> o.token.Visual? && !EndsWithBackslash(o.token.alternativeText)
    ensures o.Parsed? && o.token.transform.Some? ==> PartsOk(o.token.transform.value)
    ensures VisualRead(c2, o)
  {
    match ScanTill(c2, "/}")
    case EndOfInput(at) => Exhausted(at)
    case Scanned((raw, stop), c3) =>
      var alt := Unescape(raw);
      AlternativeClean(c2, raw, stop, c3);
      if stop == '/' then VisualTransform(c, alt, c3)
      else Parsed(Visual(c.Pos(), c3.Pos(), alt, None), c3)
  }

  /** The transformation part of `VisualToken._parse`, after the `/`; running out of input here is the source's `RuntimeError`. */
  function VisualTransform(c: Cursor, alt: string, c3: Cursor): (o: Outcome)
    requires SameStream(c, c3) && c.idx < c3.idx
    ensures Spans(c, o) && !o.Exhausted?
    ensures o.Fatal? ==> o.error == MalformedVisual
    ensures o.Parsed? ==> o.token.Visual? && o.token.alternativeText == alt && o.token.transform.Some?
    ensures o.Parsed? ==> PartsOk(o.token.transform.value)
    ensures o.Fatal? <==> TransformParts(c3).EndOfInput?
    ensures o.Parsed? ==> PartsRead(c.text, c3.idx, o.rest.idx, o.token.transform.value)
  {
    match TransformParts(c3)
    case EndOfInput(_) => Fatal(MalformedVisual)
    case Scanned(tr, c4) => Parsed(Visual(c.Pos(), c4.Pos(), alt, Some(tr)), c4)
  }

  /**
    The indentation handling of `PythonCodeToken._parse`: with an empty
    indent the code is kept; otherwise the first line is kept and followed by
    a line feed, and every later line loses `|indent|` leading characters.
    Empty code under a non-empty indent has no first line: the source's
    `lines[0]` fails there.
   */
  function StripIndent(code: string, indent: string): (r: Option<string>)
    ensures |indent| == 0 ==> r == Some(code)
    ensures r.None? <==> |indent| > 0 && code == []
    ensures |indent| > 0 && r.Some? ==> '\n' in r.value
  {
    if |indent| == 0 then Some(code)
    else
      var lines := SplitLines(code);
      if |lines| == 0 then None
      else Some(lines[0] + "\n" + JoinLines(DropEach(lines[1..], |indent|)))
  }

  /**
    `text[i..j]` is the code `v` and the backtick that closes it: `v` holds no
    unescaped backtick and does not end in a backslash that would escape the
    closing one, so that backtick is the first unescaped one from `i`.
   */
  predicate CodeRead(text: string, i: nat, v: string, j: nat) {
    j == i + |v| + 1 && j <= |text| && text[i..j] == v + "`" && StopBody(v, '`', "`")
  }

  /** The code read is the text between its start and the closing backtick. */
  lemma CodeReadRaw(text: string, i: nat, v: string, j: nat)
    requires CodeRead(text, i, v, j)
    ensures i < j && text[i..j - 1] == v
  {
    assert text[i..j - 1] == text[i..j][..|v|];
  }

  /** Code scanned up to a backtick is read up to the first unescaped backtick, which is consumed. */
  lemma CodeFound(c: Cursor, v: string, t: char, r: Cursor)
    requires StopFound(c, "`", v, t, r)
    ensures Free(v, "`") && TextBefore(c.text, r.idx, v + "`") && r.idx == c.idx + |v| + 1
    ensures CodeRead(c.text, c.idx, v, r.idx)
  {
    assert t == '`';
  }

  /** `` `!p`` and then one space or tab, if there is one. */
  function PythonHead(c: Cursor): (r: Cursor)
    requires PythonCodeStartsHere(c)
    ensures SameStream(c, r) && c.idx + 3 <= r.idx <= c.idx + 4
    ensures r.idx == c.idx + 4 <==> c.text[c.idx + 3] in "\t "
  {
    WindowAt(c, 4, 3);
    SkipIf(Skip(c, 3), "\t ")
  }

  /** `PythonCodeToken._parse`: the prefix `` `!p``, at most one space or tab, the code up to an unescaped backtick, then indentation stripping. */
  function ParsePythonCode(c: Cursor, indent: string): (o: Outcome)
    requires PythonCodeStartsHere(c)
    ensures Spans(c, o)
    ensures o.Fatal? ==> o.error == EmptyPythonCode && |indent| > 0
    ensures o.Parsed? ==> o.token.PythonCode? && o.token.indent == indent
    ensures o.Parsed? && |indent| == 0 ==> Free(o.token.code, "`") && TextBefore(c.text, o.rest.idx, o.token.code + "`")
    ensures o.Exhausted? <==> Free(c.text[PythonHead(c).idx..], "`")
    ensures o.Fatal? <==> |indent| > 0 && PythonHead(c).idx < |c.text| && c.text[PythonHead(c).idx] == '`'
    ensures o.Parsed? ==> PythonRead(c.text, PythonHead(c).idx, o.rest.idx, o.token.code, indent)
  {
    PythonAfterHead(c, PythonHead(c), indent)
  }

  /** `PythonCodeToken._parse` from `c2`, just after the prefix and the optional space or tab. */
  function PythonAfterHead(c: Cursor, c2: Cursor, indent: string): (o: Outcome)
    requires SameStream(c, c2) && c.idx < c2.idx
    ensures Spans(c, o)
    ensures o.Fatal? ==> o.error == EmptyPythonCode && |indent| > 0
    ensures o.Parsed? ==> o.token.PythonCode? && o.token.indent == indent
    ensures o.Parsed? && |indent| == 0 ==> Free(o.token.code, "`") && TextBefore(c.text, o.rest.idx, o.token.code + "`")
    ensures o.Exhausted? <==> Free(c.text[c2.idx..], "`")
    ensures o.Fatal? <==> |indent| > 0 && c2.idx < |c.text| && c.text[c2.idx] == '`'
    ensures o.Parsed? ==> PythonRead(c.text, c2.idx, o.rest.idx, o.token.code, indent)
  {
    ScanTillMissing(c2, "`");
    ScanStopsAtOnce(c2, "`");
    match ScanTill(c2, "`")
    case EndOfInput(at) => Exhausted(at)
    case Scanned((raw, t), c3) =>
      CodeFound(c2, raw, t, c3);
      StopFoundHead(c2, "`", raw, t, c3);
      PythonStrip(c, c2, raw, c3, indent)
  }

  /**
    `text[i..j]` is raw Python code up to the first unescaped backtick, which
    ends at `j`, and `code` is that raw code with its indentation stripped.
   */
  predicate PythonRead(text: string, i: nat, j: nat, code: string, indent: string) {
    i < j <= |text| && CodeRead(text, i, text[i..j - 1], j) && StripIndent(text[i..j - 1], indent) == Some(code)
  }

  /** Raw code read up to its backtick, stripped to `code`, is what `PythonRead` describes. */
  lemma PythonReadOf(text: string, i: nat, raw: string, j: nat, code: string, indent: string)
    requires CodeRead(text, i, raw, j) && StripIndent(raw, indent) == Some(code)
    ensures PythonRead(text, i, j, code, indent)
  {
    CodeReadRaw(text, i, raw, j);
  }

  /** The indentation stripping of `PythonCodeToken._parse`, once the raw code has been read from `c2` up to `c3`. */
  function PythonStrip(c: Cursor, c2: Cursor, raw: string, c3: Cursor, indent: string): (o: Outcome)
    requires SameStream(c, c2) && SameStream(c, c3) && c.idx < c3.idx
    requires CodeRead(c.text, c2.idx, raw, c3.idx)
    ensures Spans(c, o) && !o.Exhausted?
    ensures o.Fatal? <==> |indent| > 0 && raw == []
    ensures o.Fatal? ==> o.error == EmptyPythonCode
    ensures o.Parsed? ==> o.token.PythonCode? && o.token.indent == indent && o.rest == c3
    ensures o.Parsed? ==> PythonRead(c.text, c2.idx, c3.idx, o.token.code, indent)
    ensures o.Parsed? && |indent| == 0 ==> Free(o.token.code, "`") && TextBefore(c.text, o.rest.idx, o.token.code + "`")
  {
    match StripIndent(raw, indent)
    case None => Fatal(EmptyPythonCode)
    case Some(code) =>
      PythonReadOf(c.text, c2.idx, raw, c3.idx, code, indent);
      Parsed(PythonCode(c.Pos(), c3.Pos(), code, indent), c3)
  }

  /** `VimLCodeToken._parse`: the four-character prefix (whitespace included), then the code up to an unescaped backtick. */
  function ParseVimLCode(c: Cursor): (o: Outcome)
    requires VimLCodeStartsHere(c)
    ensures Spans(c, o) && !o.Fatal?
    ensures o.Parsed? ==> o.token.VimLCode? && Free(o.token.code, "`")
    ensures o.Parsed? ==> TextBefore(c.text, o.rest.idx, o.token.code + "`") && o.rest.idx == c.idx + 4 + |o.token.code| + 1
    ensures o.Parsed? ==> CodeRead(c.text, c.idx + 4, o.token.code, o.rest.idx)
    ensures o.Exhausted? <==> Free(c.text[c.idx + 4..], "`")
  {
    var c1 := Skip(c, 4);
    ScanTillMissing(c1, "`");
    match ScanTill(c1, "`")
    case EndOfInput(at) => Exhausted(at)
    case Scanned((code, t), c2) =>
      CodeFound(c1, code, t, c2);
      Parsed(VimLCode(c.Pos(), c2.Pos(), code), c2)
  }

  /** `ShellCodeToken._parse`: the backtick, then the code up to an unescaped backtick. */
  function ParseShellCode(c: Cursor): (o: Outcome)
    requires ShellCodeStartsHere(c)
    ensures Spans(c, o) && !o.Fatal?
    ensures o.Parsed? ==> o.token.ShellCode? && Free(o.token.code, "`")
    ensures o.Parsed? ==> TextBefore(c.text, o.rest.idx, o.token.code + "`") && o.rest.idx == c.idx + 1 + |o.token.code| + 1
    ensures o.Parsed? ==> CodeRead(c.text, c.idx + 1, o.token.code, o.rest.idx)
    ensures o.Exhausted? <==> Free(c.text[c.idx + 1..], "`")
  {
    var c1 := Skip(c, 1);
    ScanTillMissing(c1, "`");
    match ScanTill(c1, "`")
    case EndOfInput(at) => Exhausted(at)
    case Scanned((code, t), c2) =>
      CodeFound(c1, code, t, c2);
      Parsed(ShellCode(c.Pos(), c2.Pos(), code), c2)
  }
}
