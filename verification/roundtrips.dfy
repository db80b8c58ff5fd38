/**
  Round trips: each token kind written out in its surface syntax is
  recognized, parsed back into the same fields, and (followed by plain text)
  tokenized into exactly that token and the end-of-text token. Also the
  outcomes of running out of input inside a token.
 */
module RoundTrips {
  import opened Results
  import opened TextCursor
  import opened TextUtil
  import opened Scanners
  import opened Tokens
  import opened Lexer
  import opened LexerFacts

  /** Text the driver discards entirely. */
  predicate Plain(s: string) {
    forall i :: 0 <= i < |s| ==> s[i] !in "\\$`"
  }

  /** The cursor after `prefix` in `prefix + rest`, and plain `rest` leaves only the end-of-text token there. */
  lemma PlainTail(c: Cursor, indent: string)
    requires Plain(c.text[c.idx..])
    ensures TokenizeFrom(c, indent) == Success([EndOfText(PosAfter(c.offset, c.text), PosAfter(c.offset, c.text))])
  {
    assert forall i :: c.idx <= i < |c.text| ==> c.text[i] == c.text[c.idx..][i - c.idx];
    PlainTextHasNoTokens(c, indent);
  }

  /**
    After a parsed token the driver carries on where the token ended: the
    result is that token followed by the tokens of the rest, or the rest's
    error.
   */
  lemma TokenThenRest(c: Cursor, i: nat, indent: string, t: Token, r: Cursor)
    requires i < |AllowedTokens| && FirstMatch(c, 0) == Some(i)
    requires ParseToken(AllowedTokens[i], c, indent) == Parsed(t, r)
    ensures TokenizeFrom(c, indent) ==
      match TokenizeFrom(r, indent)
      case Success(ts) => Success([t] + ts)
      case Failure(e) => Failure(e)
  {
  }

  /** `TokenThenRest` when the rest tokenizes successfully. */
  lemma TokenThenTokens(c: Cursor, i: nat, indent: string, t: Token, r: Cursor, ts: seq<Token>)
    requires i < |AllowedTokens| && FirstMatch(c, 0) == Some(i)
    requires ParseToken(AllowedTokens[i], c, indent) == Parsed(t, r)
    requires TokenizeFrom(r, indent) == Success(ts)
    ensures TokenizeFrom(c, indent) == Success([t] + ts)
  {
    TokenThenRest(c, i, indent, t, r);
  }

  /** A token recognized first at `c` and followed by plain text is all the driver yields before the end. */
  lemma OneToken(c: Cursor, i: nat, indent: string, t: Token, r: Cursor)
    requires i < |AllowedTokens| && FirstMatch(c, 0) == Some(i)
    requires ParseToken(AllowedTokens[i], c, indent) == Parsed(t, r)
    requires Plain(r.text[r.idx..])
    ensures var e := PosAfter(c.offset, c.text);
      TokenizeFrom(c, indent) == Success([t, EndOfText(e, e)])
  {
    PlainTail(r, indent);
    TokenThenRest(c, i, indent, t, r);
    var e := PosAfter(c.offset, c.text);
    assert [t] + [EndOfText(e, e)] == [t, EndOfText(e, e)];
  }

  /** A parser's error ends tokenization with that error. */
  lemma FatalStops(c: Cursor, i: nat, indent: string, e: LexError)
    requires i < |AllowedTokens| && FirstMatch(c, 0) == Some(i)
    requires ParseToken(AllowedTokens[i], c, indent) == Fatal(e)
    ensures TokenizeFrom(c, indent) == Failure(e)
  {
  }

  /** A parser that runs out of input ends tokenization with just the end-of-text token. */
  lemma ExhaustedEnds(c: Cursor, i: nat, indent: string, at: Cursor)
    requires i < |AllowedTokens| && FirstMatch(c, 0) == Some(i)
    requires ParseToken(AllowedTokens[i], c, indent) == Exhausted(at)
    ensures var e := PosAfter(c.offset, c.text);
      TokenizeFrom(c, indent) == Success([EndOfText(e, e)])
  {
    EndPosition(at);
  }

  // ---------------------------------------------------------------------------
  // Tab stops

  /** One to seven digits: a number the recognizers' ten-character window sees whole. */
  predicate WindowDigits(d: string) {
    1 <= |d| <= 7 && AllDigits(d)
  }

  /** `${d:v}`, or `${d}` without the colon. */
  function TabStopText(d: string, colon: bool, v: string): string {
    (("${" + d) + (if colon then ":" else "")) + (v + "}")
  }

  /** The middle part of a text built from three parts. */
  lemma Middle(x: string, y: string, z: string)
    ensures ((x + y) + z)[|x|..|x| + |y|] == y
    ensures ((x + y) + z)[..|x| + |y|] == x + y
    ensures ((x + y) + z)[|x| + |y|..] == z
  {
    assert forall k :: 0 <= k < |y| ==> ((x + y) + z)[|x| + k] == y[k];
  }

  /** `${`, a run of digits `d` and a character of `follow` are read back as the value of `d`, leaving the cursor on that character. */
  lemma DollarNumberFind(c: Cursor, d: string, ch: char, follow: string) returns (r: Cursor)
    requires 1 <= |d| <= 7 && AllDigits(d) && ch in follow && !IsDigit(ch)
    requires Ahead(c, ("${" + d) + [ch])
    ensures DollarFormAt(c.text, c.idx, follow) && DollarBraceDigitsThen(PeekN(c, Window), follow)
    ensures DollarNumber(c, follow) == (DecimalValue(d), r)
    ensures SameStream(c, r) && r.idx == c.idx + 2 + |d| && r.text[r.idx] == ch
  {
    var j, k, n := c.idx + 2, c.idx + 2 + |d|, DecimalValue(d);
    DollarDigitsText(c.text, c.idx, j, k, d, ch, follow);
    DollarFormWindow(c, follow);
    var p := DollarNumber(c, follow);
    r := p.1;
    assert DigitsRead(c.text, j, r.idx, p.0);
    DigitsReadUnique(c.text, j, k, n, r.idx, p.0);
  }

  /** `DollarNumberFind` in the text's terms. */
  lemma DollarDigitsText(t: string, i: nat, j: nat, k: nat, d: string, ch: char, follow: string)
    requires 1 <= |d| <= 7 && AllDigits(d) && ch in follow && !IsDigit(ch)
    requires i + |("${" + d) + [ch]| <= |t| && t[i..i + |("${" + d) + [ch]|] == ("${" + d) + [ch]
    requires j == i + 2 && k == j + |d|
    ensures DollarFormAt(t, i, follow) && k < |t| && t[k] == ch
    ensures DigitsRead(t, j, k, DecimalValue(d))
  {
    AheadSplit(t, i, "${" + d, [ch]);
    AheadSplit(t, i, "${", d);
    assert t[k] == ch by {
      assert t[k..k + 1] == [ch];
    }
    assert t[i] == '$' && t[i + 1] == '{' by {
      assert t[i..i + 2] == "${";
    }
    assert t[j..k] == d;
    assert DigitsRead(t, j, k, DecimalValue(d));
    DigitsReadRun(t, j, k, DecimalValue(d));
    assert DigitRun(t, j) == |d| && t[k] in follow;
  }

  /** How the steps of the tab-stop parser compose. */
  lemma TabStopOf(c: Cursor, c3: Cursor, v: string, c4: Cursor)
    requires TabStopStartsHere(c) && c3 == SkipIf(DollarNumber(c, ":}").1, ":")
    requires TillClosingBrace(c3) == Scanned(v, c4)
    ensures ParseTabStop(c) == Parsed(TabStop(c.Pos(), c4.Pos(), DollarNumber(c, ":}").0, v), c4)
  {
  }

  /** A tab stop's text starts with `${`, its digits and the character after them: the `:`, or the `}` of `${d}`. */
  lemma TabStopHead(c: Cursor, d: string, colon: bool, v: string)
    requires (colon || v == []) && Ahead(c, TabStopText(d, colon, v))
    ensures Ahead(c, ("${" + d) + [if colon then ':' else '}'])
  {
    if colon {
      AheadSplit(c.text, c.idx, ("${" + d) + ":", v + "}");
    } else {
      assert TabStopText(d, colon, v) == ("${" + d) + "}";
    }
  }

  /** A written-out tab stop anywhere in the stream parses back into the value of its digits and its contents. */
  lemma TabStopFind(c: Cursor, d: string, colon: bool, v: string) returns (r: Cursor)
    requires WindowDigits(d) && (colon || v == []) && BraceBody(v, 1)
    requires Ahead(c, TabStopText(d, colon, v))
    ensures TabStopStartsHere(c)
    ensures ParseTabStop(c) == Parsed(TabStop(c.Pos(), r.Pos(), DecimalValue(d), v), r)
    ensures SameStream(c, r) && r.idx == c.idx + |TabStopText(d, colon, v)|
  {
    var head := ("${" + d) + (if colon then ":" else "");
    TabStopHead(c, d, colon, v);
    var c2 := DollarNumberFind(c, d, if colon then ':' else '}', ":}");
    var c3 := SkipIf(c2, ":");
    AheadAfter(c, head, v + "}", c3);
    r := BracePartFind(c3, v);
    TabStopOf(c, c3, v, r);
  }

  lemma TabStopParses(d: string, colon: bool, v: string, rest: string, offset: Position)
    requires WindowDigits(d) && (colon || v == []) && BraceBody(v, 1)
    ensures var text := TabStopText(d, colon, v) + rest;
      var c := Start(text, offset);
      && TabStopStartsHere(c)
      && ParseTabStop(c) == Parsed(TabStop(offset, PosAfter(offset, TabStopText(d, colon, v)), DecimalValue(d), v),
                                   CursorAt(text, offset, |TabStopText(d, colon, v)|))
  {
    var text := TabStopText(d, colon, v) + rest;
    var c := Start(text, offset);
    assert text[..|TabStopText(d, colon, v)|] == TabStopText(d, colon, v);
    var r := TabStopFind(c, d, colon, v);
    CursorDetermined(r);
  }

  /** The driver hands a recognized tab stop to its parser. */
  lemma TabStopDispatch(c: Cursor, indent: string)
    requires TabStopStartsHere(c)
    ensures FirstMatch(c, 0) == Some(3) && ParseToken(AllowedTokens[3], c, indent) == ParseTabStop(c)
  {
    RecognizedFirst(c, 3);
  }

  /** `${d:v}` or `${d}` followed by plain text tokenizes to that tab stop and the end-of-text token. */
  lemma TabStopTokenizes(d: string, colon: bool, v: string, rest: string, indent: string, offset: Position)
    requires WindowDigits(d) && (colon || v == []) && BraceBody(v, 1) && Plain(rest)
    ensures var text := TabStopText(d, colon, v) + rest;
      var e := PosAfter(offset, text);
      Tokenize(text, indent, offset) ==
        Success([TabStop(offset, PosAfter(offset, TabStopText(d, colon, v)), DecimalValue(d), v), EndOfText(e, e)])
  {
    var text := TabStopText(d, colon, v) + rest;
    var c := Start(text, offset);
    TabStopParses(d, colon, v, rest, offset);
    TabStopDispatch(c, indent);
    assert text[|TabStopText(d, colon, v)|..] == rest;
    OneToken(c, 3, indent, TabStop(offset, PosAfter(offset, TabStopText(d, colon, v)), DecimalValue(d), v),
             CursorAt(text, offset, |TabStopText(d, colon, v)|));
  }

  /** `$n$m` and plain text that does not start with a digit tokenize into both mirrors and the end-of-text token. */
  lemma MirrorsTokenize(n: nat, m: nat, rest: string, indent: string, offset: Position)
    requires Plain(rest) && (rest == [] || !IsDigit(rest[0]))
    ensures var text := (MirrorText(n) + MirrorText(m)) + rest;
      var p := PosAfter(offset, MirrorText(n));
      var q := PosAfter(offset, MirrorText(n) + MirrorText(m));
      var e := PosAfter(offset, text);
      Tokenize(text, indent, offset) == Success([Mirror(offset, p, n), Mirror(p, q, m), EndOfText(e, e)])
  {
    var x, y := MirrorText(n), MirrorText(m);
    var text := (x + y) + rest;
    var c := Start(text, offset);
    assert c.text[c.idx..] == x + (y + rest);
    var r1, r2 := MirrorsFrom(c, n, m, rest, indent);
    Middle(x, y, rest);
  }

  /** Two mirrors read one after the other from a cursor, with the driver's result at that cursor. */
  lemma MirrorsFrom(c: Cursor, n: nat, m: nat, rest: string, indent: string) returns (r1: Cursor, r2: Cursor)
    requires c.text[c.idx..] == MirrorText(n) + (MirrorText(m) + rest)
    requires Plain(rest) && (rest == [] || !IsDigit(rest[0]))
    ensures r1.idx == c.idx + |MirrorText(n)| && r2.idx == r1.idx + |MirrorText(m)|
    ensures r1 == CursorAt(c.text, c.offset, r1.idx) && r2 == CursorAt(c.text, c.offset, r2.idx)
    ensures var e := PosAfter(c.offset, c.text);
      TokenizeFrom(c, indent) == Success([Mirror(c.Pos(), r1.Pos(), n), Mirror(r1.Pos(), r2.Pos(), m), EndOfText(e, e)])
  {
    var e := PosAfter(c.offset, c.text);
    r1 := MirrorAt(c, n, MirrorText(m) + rest);
    r2 := LastMirror(r1, m, rest, indent);
    var t1, t2 := Mirror(c.Pos(), r1.Pos(), n), Mirror(r1.Pos(), r2.Pos(), m);
    MirrorThen(c, n, r1, indent, [t2, EndOfText(e, e)]);
    assert [t1] + [t2, EndOfText(e, e)] == [t1, t2, EndOfText(e, e)];
  }

  /** After a mirror the driver carries on where the mirror's digits end. */
  lemma MirrorThen(c: Cursor, n: nat, r: Cursor, indent: string, ts: seq<Token>)
    requires MirrorStartsHere(c) && ParseMirror(c) == Parsed(Mirror(c.Pos(), r.Pos(), n), r)
    requires TokenizeFrom(r, indent) == Success(ts)
    ensures TokenizeFrom(c, indent) == Success([Mirror(c.Pos(), r.Pos(), n)] + ts)
  {
    MirrorDispatch(c, indent);
    TokenThenTokens(c, 4, indent, Mirror(c.Pos(), r.Pos(), n), r, ts);
  }

  /** A mirror followed by plain text that does not start with a digit: the driver yields it and the end-of-text token. */
  lemma LastMirror(c: Cursor, m: nat, rest: string, indent: string) returns (r: Cursor)
    requires c.text[c.idx..] == MirrorText(m) + rest
    requires Plain(rest) && (rest == [] || !IsDigit(rest[0]))
    ensures SameStream(c, r) && r.idx == c.idx + |MirrorText(m)| && r == CursorAt(c.text, c.offset, r.idx)
    ensures var e := PosAfter(c.offset, c.text);
      TokenizeFrom(c, indent) == Success([Mirror(c.Pos(), r.Pos(), m), EndOfText(e, e)])
  {
    r := MirrorAt(c, m, rest);
    MirrorDispatch(c, indent);
    OneToken(c, 4, indent, Mirror(c.Pos(), r.Pos(), m), r);
  }

  /** `$n` at the cursor, followed by `more` that does not start with a digit, parses into the mirror of `n`. */
  lemma MirrorAt(c: Cursor, n: nat, more: string) returns (r: Cursor)
    requires c.text[c.idx..] == MirrorText(n) + more
    requires more == [] || !IsDigit(more[0])
    ensures MirrorStartsHere(c) && ParseMirror(c) == Parsed(Mirror(c.Pos(), r.Pos(), n), r)
    ensures SameStream(c, r) && r.idx == c.idx + |MirrorText(n)| && r.text[r.idx..] == more
    ensures r == CursorAt(c.text, c.offset, r.idx)
  {
    RestSplit(c.text, c.idx, MirrorText(n), more);
    r := MirrorFind(c, DecimalString(n));
    CursorDetermined(r);
  }

  /** A suffix `x + y` of the text starts with `x`, and `y` is what follows. */
  lemma RestSplit(text: string, i: nat, x: string, y: string)
    requires i <= |text| && text[i..] == x + y
    ensures i + |x| <= |text| && text[i..i + |x|] == x && text[i + |x|..] == y
    ensures y != [] ==> text[i + |x|] == y[0]
  {
    var s := text[i..];
    assert text[i..i + |x|] == s[..|x|];
    assert text[i + |x|..] == s[|x|..];
  }

  // ---------------------------------------------------------------------------
  // Transformations

  /** The text at `c` starts with `s`. */
  predicate Ahead(c: Cursor, s: string) {
    c.idx + |s| <= |c.text| && c.text[c.idx..c.idx + |s|] == s
  }

  /** Text that starts with `x + y` starts with `x`, and `y` follows it. */
  lemma AheadSplit(text: string, i: nat, x: string, y: string)
    requires i + |x + y| <= |text| && text[i..i + |x + y|] == x + y
    ensures text[i..i + |x|] == x
    ensures text[i + |x|..i + |x| + |y|] == y
  {
    var s := text[i..i + |x + y|];
    assert text[i..i + |x|] == s[..|x|];
    assert text[i + |x|..i + |x| + |y|] == s[|x|..];
  }

  /** Past `x`, the text that started with `x + y` starts with `y`. */
  lemma AheadAfter(c: Cursor, x: string, y: string, r: Cursor)
    requires Ahead(c, x + y) && SameStream(c, r) && r.idx == c.idx + |x|
    ensures Ahead(r, y)
  {
    AheadSplit(c.text, c.idx, x, y);
  }

  /** A scan for `/` over well-formed text returns it and stops right after the `/`, before `more`. */
  lemma SlashPartFind(c: Cursor, v: string, more: string) returns (r: Cursor)
    requires StopBody(v, '/', "/") && Ahead(c, (v + "/") + more)
    ensures ScanTill(c, "/") == Scanned((v, '/'), r)
    ensures SameStream(c, r) && r.idx == c.idx + |v| + 1 && Ahead(r, more)
  {
    AheadSplit(c.text, c.idx, v + "/", more);
    ScanTillFinds(c, "/", v, '/');
    r := ScanTill(c, "/").rest;
    AheadAfter(c, v + "/", more, r);
  }

  /** A brace scan over a balanced body returns it and stops right after its closing brace. */
  lemma BracePartFind(c: Cursor, o: string) returns (r: Cursor)
    requires BraceBody(o, 1) && Ahead(c, o + "}")
    ensures TillClosingBrace(c) == Scanned(o, r)
    ensures SameStream(c, r) && r.idx == c.idx + |o| + 1
  {
    BraceScanFinds(c, o);
    r := TillClosingBrace(c).rest;
  }

  /** How the three scans of the transformation parts compose. */
  lemma TransformPartsOf(c: Cursor, a: string, b: string, o: string, c1: Cursor, c2: Cursor, c3: Cursor)
    requires ScanTill(c, "/") == Scanned((a, '/'), c1) && ScanTill(c1, "/") == Scanned((b, '/'), c2)
    requires TillClosingBrace(c2) == Scanned(o, c3)
    ensures TransformParts(c) == Scanned(Transform(a, b, o), c3)
  {
  }

  /** The transformation parts written out are scanned back intact. */
  lemma TransformPartsFind(c: Cursor, t: Transform) returns (r: Cursor)
    requires PartsOk(t) && Ahead(c, TransformText(t))
    ensures TransformParts(c) == Scanned(t, r)
    ensures SameStream(c, r) && r.idx == c.idx + |TransformText(t)|
  {
    var a, b, o := t.search, t.replace, t.options;
    var c1 := SlashPartFind(c, a, (b + "/") + (o + "}"));
    var c2 := SlashPartFind(c1, b, o + "}");
    r := BracePartFind(c2, o);
    TransformPartsOf(c, a, b, o, c1, c2, r);
  }

  /** `${d/search/replace/options}` */
  function TransformationText(d: string, t: Transform): string {
    (("${" + d) + "/") + TransformText(t)
  }

  /** How the steps of the transformation parser compose. */
  lemma TransformationOf(c: Cursor, c3: Cursor, t: Transform, c4: Cursor)
    requires TransformationStartsHere(c) && c3 == Next(DollarNumber(c, "/").1).rest
    requires TransformParts(c3) == Scanned(t, c4)
    ensures ParseTransformation(c) ==
      Parsed(Transformation(c.Pos(), c4.Pos(), DollarNumber(c, "/").0, t.search, t.replace, t.options), c4)
  {
  }

  /** A written-out transformation anywhere in the stream parses back into the value of its digits and its parts. */
  lemma TransformationFind(c: Cursor, d: string, t: Transform) returns (r: Cursor)
    requires WindowDigits(d) && PartsOk(t)
    requires Ahead(c, TransformationText(d, t))
    ensures TransformationStartsHere(c)
    ensures ParseTransformation(c) ==
      Parsed(Transformation(c.Pos(), r.Pos(), DecimalValue(d), t.search, t.replace, t.options), r)
    ensures SameStream(c, r) && r.idx == c.idx + |TransformationText(d, t)|
  {
    var head := ("${" + d) + "/";
    AheadSplit(c.text, c.idx, head, TransformText(t));
    var c2 := DollarNumberFind(c, d, '/', "/");
    var c3 := Next(c2).rest;
    AheadAfter(c, head, TransformText(t), c3);
    r := TransformPartsFind(c3, t);
    TransformationOf(c, c3, t, r);
  }

  lemma TransformationParses(d: string, t: Transform, rest: string, offset: Position)
    requires WindowDigits(d) && PartsOk(t)
    ensures var text := TransformationText(d, t) + rest;
      var c := Start(text, offset);
      && TransformationStartsHere(c)
      && ParseTransformation(c) ==
           Parsed(Transformation(offset, PosAfter(offset, TransformationText(d, t)), DecimalValue(d), t.search, t.replace, t.options),
                  CursorAt(text, offset, |TransformationText(d, t)|))
  {
    var text := TransformationText(d, t) + rest;
    var c := Start(text, offset);
    assert text[..|TransformationText(d, t)|] == TransformationText(d, t);
    var r := TransformationFind(c, d, t);
    CursorDetermined(r);
  }

  lemma TransformationDispatch(c: Cursor, indent: string)
    requires TransformationStartsHere(c)
    ensures FirstMatch(c, 0) == Some(2) && ParseToken(AllowedTokens[2], c, indent) == ParseTransformation(c)
  {
    RecognizedFirst(c, 2);
  }

  /** `${d/search/replace/options}` followed by plain text tokenizes to that transformation and the end-of-text token. */
  lemma TransformationTokenizes(d: string, t: Transform, rest: string, indent: string, offset: Position)
    requires WindowDigits(d) && PartsOk(t) && Plain(rest)
    ensures var text := TransformationText(d, t) + rest;
      var e := PosAfter(offset, text);
      Tokenize(text, indent, offset) ==
        Success([Transformation(offset, PosAfter(offset, TransformationText(d, t)), DecimalValue(d), t.search, t.replace, t.options),
                 EndOfText(e, e)])
  {
    var text := TransformationText(d, t) + rest;
    var c := Start(text, offset);
    TransformationParses(d, t, rest, offset);
    TransformationDispatch(c, indent);
    assert text[|TransformationText(d, t)|..] == rest;
    OneToken(c, 2, indent, Transformation(offset, PosAfter(offset, TransformationText(d, t)), DecimalValue(d), t.search, t.replace, t.options),
             CursorAt(text, offset, |TransformationText(d, t)|));
  }

  // ---------------------------------------------------------------------------
  // Mirrors

  /** `$n` */
  function MirrorText(n: nat): string {
    "$" + DecimalString(n)
  }

  /** `$` and a digit are recognized as a mirror. */
  lemma MirrorAhead(c: Cursor, d: string)
    requires 1 <= |d| && AllDigits(d) && Ahead(c, "$" + d)
    ensures MirrorStartsHere(c) && c.text[c.idx + 1..c.idx + 1 + |d|] == d
  {
    AheadSplit(c.text, c.idx, "$", d);
    assert c.text[c.idx..c.idx + 1][0] == c.text[c.idx];
    assert c.text[c.idx + 1..c.idx + 1 + |d|][0] == c.text[c.idx + 1];
    WindowAt(c, Window, 0);
    WindowAt(c, Window, 1);
  }

  /** `$` and a run of digits `d` that is not followed by another digit are read back as the value of `d`. */
  lemma MirrorFind(c: Cursor, d: string) returns (r: Cursor)
    requires 1 <= |d| && AllDigits(d) && Ahead(c, "$" + d)
    requires c.idx + 1 + |d| == |c.text| || !IsDigit(c.text[c.idx + 1 + |d|])
    ensures MirrorStartsHere(c)
    ensures ParseMirror(c) == Parsed(Mirror(c.Pos(), r.Pos(), DecimalValue(d)), r)
    ensures SameStream(c, r) && r.idx == c.idx + 1 + |d|
  {
    MirrorAhead(c, d);
    var o := ParseMirror(c);
    r := o.rest;
    assert DigitsRead(c.text, c.idx + 1, r.idx, o.token.number);
    ReadOver(c.text, c.idx + 1, r.idx, o.token.number, d);
  }

  /** A maximal digit run read over the digits `d` ends right after them and has their value. */
  lemma ReadOver(t: string, i: nat, j: nat, n: nat, d: string)
    requires DigitsRead(t, i, j, n) && 1 <= |d| && AllDigits(d) && i + |d| <= |t| && t[i..i + |d|] == d
    requires i + |d| == |t| || !IsDigit(t[i + |d|])
    ensures j == i + |d| && n == DecimalValue(d)
  {
    DigitsReadUnique(t, i, j, n, i + |d|, DecimalValue(d));
  }

  /** A mirror's number has no length limit: the window only needs to see its first digit. */
  lemma MirrorParses(n: nat, rest: string, offset: Position)
    requires rest == [] || !IsDigit(rest[0])
    ensures var text := MirrorText(n) + rest;
      var c := Start(text, offset);
      && MirrorStartsHere(c)
      && ParseMirror(c) == Parsed(Mirror(offset, PosAfter(offset, MirrorText(n)), n), CursorAt(text, offset, |MirrorText(n)|))
  {
    var text := MirrorText(n) + rest;
    var c := Start(text, offset);
    assert text[..|MirrorText(n)|] == MirrorText(n);
    assert rest != [] ==> text[|MirrorText(n)|] == rest[0];
    var r := MirrorFind(c, DecimalString(n));
    CursorDetermined(r);
  }

  /** The driver hands a recognized mirror to its parser. */
  lemma MirrorDispatch(c: Cursor, indent: string)
    requires MirrorStartsHere(c)
    ensures FirstMatch(c, 0) == Some(4) && ParseToken(AllowedTokens[4], c, indent) == ParseMirror(c)
  {
    RecognizedFirst(c, 4);
  }

  /** `$n` followed by plain text that does not start with a digit tokenizes to that mirror and the end-of-text token. */
  lemma MirrorTokenizes(n: nat, rest: string, indent: string, offset: Position)
    requires Plain(rest) && (rest == [] || !IsDigit(rest[0]))
    ensures var text := MirrorText(n) + rest;
      var e := PosAfter(offset, text);
      Tokenize(text, indent, offset) == Success([Mirror(offset, PosAfter(offset, MirrorText(n)), n), EndOfText(e, e)])
  {
    var text := MirrorText(n) + rest;
    var c := Start(text, offset);
    MirrorParses(n, rest, offset);
    MirrorDispatch(c, indent);
    assert text[|MirrorText(n)|..] == rest;
    OneToken(c, 4, indent, Mirror(offset, PosAfter(offset, MirrorText(n)), n), CursorAt(text, offset, |MirrorText(n)|));
  }

  // ---------------------------------------------------------------------------
  // Running out of input

  /** How the steps of the tab-stop parser compose when the brace scan runs out. */
  lemma TabStopOfUnclosed(c: Cursor, c3: Cursor, at: Cursor)
    requires TabStopStartsHere(c) && c3 == SkipIf(DollarNumber(c, ":}").1, ":")
    requires TillClosingBrace(c3) == EndOfInput(at)
    ensures ParseTabStop(c) == Exhausted(at)
  {
  }

  /** `TabStopUnclosed` at the cursor: the tab stop runs to the end of the text. */
  lemma TabStopUnclosedAt(c: Cursor, d: string, y: string) returns (at: Cursor)
    requires WindowDigits(d) && BraceDepth(y, 1).Some?
    requires Ahead(c, (("${" + d) + ":") + y)
    requires c.idx + |(("${" + d) + ":") + y| == |c.text|
    ensures TabStopStartsHere(c) && ParseTabStop(c) == Exhausted(at)
  {
    var head := ("${" + d) + ":";
    AheadSplit(c.text, c.idx, head, y);
    var c2 := DollarNumberFind(c, d, ':', ":}");
    var c3 := SkipIf(c2, ":");
    AheadAfter(c, head, y, c3);
    assert c.text[c3.idx..] == y;
    TillClosingBraceMissing(c3);
    at := TillClosingBrace(c3).at;
    TabStopOfUnclosed(c, c3, at);
  }

  /**
    A tab stop whose braces never close consumes the rest of the text, and
    the driver ends with just the end-of-text token, as it does when any
    parser but the visual transformation runs out.
   */
  lemma TabStopUnclosed(d: string, y: string, indent: string, offset: Position)
    requires WindowDigits(d) && BraceDepth(y, 1).Some?
    ensures var text := (("${" + d) + ":") + y;
      var e := PosAfter(offset, text);
      Tokenize(text, indent, offset) == Success([EndOfText(e, e)])
  {
    var text := (("${" + d) + ":") + y;
    var c := Start(text, offset);
    assert text[..|text|] == text;
    var at := TabStopUnclosedAt(c, d, y);
    TabStopDispatch(c, indent);
    ExhaustedEnds(c, 3, indent, at);
  }

  /** How the steps of the transformation parser compose when the parts run out. */
  lemma TransformationOfUnclosed(c: Cursor, c3: Cursor, at: Cursor)
    requires TransformationStartsHere(c) && c3 == Next(DollarNumber(c, "/").1).rest
    requires TransformParts(c3) == EndOfInput(at)
    ensures ParseTransformation(c) == Exhausted(at)
  {
  }

  /** The first `k` parts of `t`, each with the `/` that ends it: what a transformation shows before the part it runs out in. */
  function PartsPrefix(t: Transform, k: nat): string {
    if k == 0 then [] else if k == 1 then t.search + "/" else (t.search + "/") + (t.replace + "/")
  }

  /** The first `k` parts are ones the scans return intact. */
  predicate PrefixOk(t: Transform, k: nat) {
    (k >= 1 ==> StopBody(t.search, '/', "/")) && (k >= 2 ==> StopBody(t.replace, '/', "/"))
  }

  /** The part being read when the text ends never finishes: search or replace (`k` < 2) meets no unescaped `/`, the options never close. */
  predicate Unfinished(y: string, k: nat) {
    if k < 2 then Free(y, "/") else BraceDepth(y, 1).Some?
  }

  /** How the scans of the transformation parts compose when the replace part runs out. */
  lemma ReplaceRunsOut(c: Cursor, a: string, c1: Cursor, at: Cursor)
    requires ScanTill(c, "/") == Scanned((a, '/'), c1) && ScanTill(c1, "/") == EndOfInput(at)
    ensures TransformParts(c) == EndOfInput(at)
  {
  }

  /** How the scans of the transformation parts compose when the options run out. */
  lemma OptionsRunOut(c: Cursor, a: string, b: string, c1: Cursor, c2: Cursor, at: Cursor)
    requires ScanTill(c, "/") == Scanned((a, '/'), c1) && ScanTill(c1, "/") == Scanned((b, '/'), c2)
    requires TillClosingBrace(c2) == EndOfInput(at)
    ensures TransformParts(c) == EndOfInput(at)
  {
  }

  /** The scan at `c` runs out when the text from `c` to the end is `y`, with no unescaped `/`. */
  lemma SlashMissing(c: Cursor, y: string) returns (at: Cursor)
    requires Ahead(c, y) && c.idx + |y| == |c.text| && Free(y, "/")
    ensures ScanTill(c, "/") == EndOfInput(at)
  {
    assert c.text[c.idx..] == y;
    ScanTillMissing(c, "/");
    at := ScanTill(c, "/").at;
  }

  /** A transformation that runs out in part `k`, whatever it showed before: its written-out prefix, then `y` to the end. */
  lemma PartsMissing(c: Cursor, t: Transform, k: nat, y: string) returns (at: Cursor)
    requires k <= 2 && PrefixOk(t, k) && Unfinished(y, k)
    requires Ahead(c, PartsPrefix(t, k) + y) && c.idx + |PartsPrefix(t, k) + y| == |c.text|
    ensures TransformParts(c) == EndOfInput(at)
  {
    if k == 0 {
      at := SlashMissing(c, y);
    } else if k == 1 {
      at := ReplaceMissing(c, t.search, y);
    } else {
      assert PartsPrefix(t, k) + y == (t.search + "/") + ((t.replace + "/") + y);
      at := OptionsMissing(c, t.search, t.replace, y);
    }
  }

  /** The replacement runs out: `a/` and then `y` to the end. */
  lemma ReplaceMissing(c: Cursor, a: string, y: string) returns (at: Cursor)
    requires StopBody(a, '/', "/") && Free(y, "/")
    requires Ahead(c, (a + "/") + y) && c.idx + |(a + "/") + y| == |c.text|
    ensures TransformParts(c) == EndOfInput(at)
  {
    var c1 := SlashPartFind(c, a, y);
    at := SlashMissing(c1, y);
    ReplaceRunsOut(c, a, c1, at);
  }

  /** The options run out: `a/b/` and then `y` to the end. */
  lemma OptionsMissing(c: Cursor, a: string, b: string, y: string) returns (at: Cursor)
    requires StopBody(a, '/', "/") && StopBody(b, '/', "/") && BraceDepth(y, 1).Some?
    requires Ahead(c, (a + "/") + ((b + "/") + y)) && c.idx + |(a + "/") + ((b + "/") + y)| == |c.text|
    ensures TransformParts(c) == EndOfInput(at)
  {
    var c1 := SlashPartFind(c, a, (b + "/") + y);
    var c2 := SlashPartFind(c1, b, y);
    assert c.text[c2.idx..] == y;
    TillClosingBraceMissing(c2);
    at := TillClosingBrace(c2).at;
    OptionsRunOut(c, a, b, c1, c2, at);
  }

  /** `TransformationUnclosed` at the cursor: the transformation runs to the end of the text. */
  lemma TransformationUnclosedAt(c: Cursor, d: string, t: Transform, k: nat, y: string) returns (at: Cursor)
    requires WindowDigits(d) && k <= 2 && PrefixOk(t, k) && Unfinished(y, k)
    requires Ahead(c, (("${" + d) + "/") + (PartsPrefix(t, k) + y))
    requires c.idx + |(("${" + d) + "/") + (PartsPrefix(t, k) + y)| == |c.text|
    ensures TransformationStartsHere(c) && ParseTransformation(c) == Exhausted(at)
  {
    var head := ("${" + d) + "/";
    var tail := PartsPrefix(t, k) + y;
    AheadSplit(c.text, c.idx, head, tail);
    var c2 := DollarNumberFind(c, d, '/', "/");
    var c3 := Next(c2).rest;
    AheadAfter(c, head, tail, c3);
    at := PartsMissing(c3, t, k, y);
    TransformationOfUnclosed(c, c3, at);
  }

  /**
    A transformation that runs out of input in any of its three parts ends
    the text quietly, with just the end-of-text token, unlike the visual one.
   */
  lemma TransformationUnclosed(d: string, t: Transform, k: nat, y: string, indent: string, offset: Position)
    requires WindowDigits(d) && k <= 2 && PrefixOk(t, k) && Unfinished(y, k)
    ensures var text := (("${" + d) + "/") + (PartsPrefix(t, k) + y);
      var e := PosAfter(offset, text);
      Tokenize(text, indent, offset) == Success([EndOfText(e, e)])
  {
    var text := (("${" + d) + "/") + (PartsPrefix(t, k) + y);
    var c := Start(text, offset);
    assert text[..|text|] == text;
    var at := TransformationUnclosedAt(c, d, t, k, y);
    TransformationDispatch(c, indent);
    ExhaustedEnds(c, 2, indent, at);
  }

  /** A run of digits at least `m` long starts wherever `m` digits do. */
  lemma {:induction false} DigitRunAtLeast(s: string, i: nat, m: nat)
    requires i + m <= |s| && AllDigits(s[i..i + m])
    ensures DigitRun(s, i) >= m
    decreases m
  {
    if m > 0 {
      assert IsDigit(s[i..i + m][0]);
      assert s[i + 1..i + m] == s[i..i + m][1..];
      DigitRunAtLeast(s, i + 1, m - 1);
    }
  }

  /** Where no kind matches, the driver discards one character and carries on. */
  lemma SkipOne(c: Cursor, indent: string)
    requires c.idx < |c.text| && FirstMatch(c, 0).None?
    ensures TokenizeFrom(c, indent) == TokenizeFrom(Next(c).rest, indent)
  {
  }

  /**
    `${` with eight or more digits is no token at all: neither a tab stop nor
    a transformation recognizes it, a mirror needs a digit right after `$`,
    so the driver discards the `$`, then the `{` and the digits one by one,
    and plain text after them leaves just the end-of-text token.
   */
  lemma LongNumberSkipped(d: string, rest: string, indent: string, offset: Position)
    requires |d| >= 8 && AllDigits(d) && Plain(rest)
    ensures var text := ("${" + d) + rest;
      var e := PosAfter(offset, text);
      Tokenize(text, indent, offset) == Success([EndOfText(e, e)])
  {
    var text := ("${" + d) + rest;
    LongNumberText(d, rest);
    LongNumberSkippedAt(Start(text, offset), indent);
  }

  /** The text of `LongNumberSkipped` in the terms of `LongNumberSkippedAt`. */
  lemma LongNumberText(d: string, rest: string)
    requires |d| >= 8 && AllDigits(d) && Plain(rest)
    ensures var text := ("${" + d) + rest;
      && |text| >= 2 && text[0] == '$' && text[1] == '{'
      && DigitRun(text, 2) >= 8 && Plain(text[1..])
  {
    var text := ("${" + d) + rest;
    assert text[2..2 + |d|] == d;
    DigitRunAtLeast(text, 2, |d|);
    assert text[1..] == ("{" + d) + rest;
    DigitsPlain(d, rest);
  }

  /** `LongNumberSkipped` at the cursor. */
  lemma LongNumberSkippedAt(c: Cursor, indent: string)
    requires c.idx + 2 <= |c.text| && c.text[c.idx] == '$' && c.text[c.idx + 1] == '{'
    requires DigitRun(c.text, c.idx + 2) >= 8 && Plain(c.text[c.idx + 1..])
    ensures TokenizeFrom(c, indent) == Success([EndOfText(PosAfter(c.offset, c.text), PosAfter(c.offset, c.text))])
  {
    LongNumberNoKind(c);
    SkipOne(c, indent);
    PlainTail(Next(c).rest, indent);
  }

  /** Digits hold no backslash, dollar or backtick, and neither does `{`. */
  lemma DigitsPlain(d: string, rest: string)
    requires AllDigits(d) && Plain(rest)
    ensures Plain(("{" + d) + rest)
  {
    var s := ("{" + d) + rest;
    forall i | 0 <= i < |s|
      ensures s[i] !in "\\$`"
    {
      if 1 <= i < 1 + |d| {
        assert s[i] == d[i - 1];
      } else if i >= 1 + |d| {
        assert s[i] == rest[i - 1 - |d|];
      }
    }
  }
}
