/**
  Round trips of the `${VISUAL...}` placeholder: the alternative text is
  read up to its stop character and unescaped, so any text comes back when
  it is quoted on the way out, and the optional transformation comes back
  intact. A transformation that runs out of input
  is the one place where running out is an error rather than the end.
 */
module VisualTrips {
  import opened Results
  import opened TextCursor
  import opened TextUtil
  import opened Scanners
  import opened Tokens
  import opened Lexer
  import opened LexerFacts
  import opened RoundTrips

  /** `${VISUAL`, with the optional `:`. */
  function VisualOpen(colon: bool): string {
    if colon then "${VISUAL:" else "${VISUAL"
  }

  /** The character that ends the alternative text: `}`, or `/` before a transformation. */
  function VisualStop(tr: Option<Transform>): char {
    if tr.None? then '}' else '/'
  }

  /** What follows the stop character. */
  function VisualMore(tr: Option<Transform>): string {
    match tr
    case None => ""
    case Some(t) => TransformText(t)
  }

  /** `${VISUAL:raw}` or `${VISUAL:raw/search/replace/options}`, with `raw` as it stands in the snippet. */
  function VisualText(colon: bool, raw: string, tr: Option<Transform>): string {
    VisualOpen(colon) + ((raw + [VisualStop(tr)]) + VisualMore(tr))
  }

  /** `${VISUAL` followed by `:`, `}` or `/` is recognized, and the head stops after the `:` if there is one. */
  lemma VisualRecognized(c: Cursor, colon: bool, body: string)
    requires Ahead(c, VisualOpen(colon) + body) && |body| >= 1
    requires colon || body[0] in "}/"
    ensures VisualStartsHere(c) && VisualHead(c).idx == c.idx + |VisualOpen(colon)|
  {
    var h := VisualOpen(colon);
    var w := PeekN(c, Window);
    AheadSplit(c.text, c.idx, h, body);
    assert c.text[c.idx..c.idx + 8] == "${VISUAL" by {
      assert c.text[c.idx..c.idx + 8] == h[..8];
    }
    assert c.text[c.idx + 8] in ":}/" by {
      if colon {
        assert c.text[c.idx + 8] == h[8];
      } else {
        assert c.text[c.idx + 8] == (h + body)[8];
      }
    }
    assert w[..8] == c.text[c.idx..c.idx + 8];
    assert w[8] == c.text[c.idx + 8];
  }

  /** How the steps of the visual parser compose, without a transformation. */
  lemma VisualOfPlain(c: Cursor, raw: string, c3: Cursor)
    requires VisualStartsHere(c) && ScanTill(VisualHead(c), "/}") == Scanned((raw, '}'), c3)
    ensures ParseVisual(c) == Parsed(Visual(c.Pos(), c3.Pos(), Unescape(raw), None), c3)
  {
  }

  /** How the steps of the visual parser compose, with a transformation. */
  lemma VisualOfTransform(c: Cursor, raw: string, c3: Cursor, t: Transform, c4: Cursor)
    requires VisualStartsHere(c) && ScanTill(VisualHead(c), "/}") == Scanned((raw, '/'), c3)
    requires TransformParts(c3) == Scanned(t, c4)
    ensures ParseVisual(c) == Parsed(Visual(c.Pos(), c4.Pos(), Unescape(raw), Some(t)), c4)
  {
  }

  /** A transformation after `${VISUAL...` that runs out of input is an error. */
  lemma VisualOfMalformed(c: Cursor, raw: string, c3: Cursor, at: Cursor)
    requires VisualStartsHere(c) && ScanTill(VisualHead(c), "/}") == Scanned((raw, '/'), c3)
    requires TransformParts(c3) == EndOfInput(at)
    ensures ParseVisual(c) == Fatal(MalformedVisual)
  {
  }

  /** Alternative text followed by `stop` is scanned back whole, and the scan stops right after `stop`. */
  lemma AlternativeFind(c: Cursor, raw: string, stop: char, more: string) returns (r: Cursor)
    requires StopBody(raw, stop, "/}")
    requires Ahead(c, (raw + [stop]) + more)
    ensures ScanTill(c, "/}") == Scanned((raw, stop), r)
    ensures SameStream(c, r) && r.idx == c.idx + |raw| + 1 && Ahead(r, more)
  {
    AheadSplit(c.text, c.idx, raw + [stop], more);
    ScanTillFinds(c, "/}", raw, stop);
    r := ScanTill(c, "/}").rest;
    AheadAfter(c, raw + [stop], more, r);
  }

  /** Any text can be the alternative text: quoted, it holds no unescaped stop character, and it unescapes back to itself. */
  lemma QuotedAlternative(x: string, stop: char)
    requires stop in "/}" && !EndsWithBackslash(x)
    ensures StopBody(Quote(x, "/}"), stop, "/}")
    ensures Unescape(Quote(x, "/}")) == x
  {
    QuoteFree(x, "/}");
    UnescapeQuote(x, "/}");
  }

  /** The head and the alternative text of a written-out visual placeholder are read back, up to the stop character before `more`. */
  lemma VisualAlternative(colon: bool, raw: string, stop: char, more: string, c: Cursor) returns (c3: Cursor)
    requires colon || raw == []
    requires StopBody(raw, stop, "/}")
    requires Ahead(c, VisualOpen(colon) + ((raw + [stop]) + more))
    ensures VisualStartsHere(c)
    ensures ScanTill(VisualHead(c), "/}") == Scanned((raw, stop), c3)
    ensures SameStream(c, c3) && c3.idx == c.idx + |VisualOpen(colon)| + |raw| + 1
    ensures Ahead(c3, more)
  {
    var h := VisualOpen(colon);
    var body := (raw + [stop]) + more;
    AheadSplit(c.text, c.idx, h, body);
    assert !colon ==> body[0] == stop;
    VisualRecognized(c, colon, body);
    var c2 := VisualHead(c);
    AheadAfter(c, h, body, c2);
    c3 := AlternativeFind(c2, raw, stop, more);
  }

  /** A written-out visual placeholder anywhere in the stream parses back into its unescaped alternative text and its transformation. */
  lemma VisualFind(c: Cursor, colon: bool, raw: string, tr: Option<Transform>) returns (r: Cursor)
    requires colon || raw == []
    requires StopBody(raw, VisualStop(tr), "/}")
    requires tr.Some? ==> PartsOk(tr.value)
    requires Ahead(c, VisualText(colon, raw, tr))
    ensures VisualStartsHere(c)
    ensures ParseVisual(c) == Parsed(Visual(c.Pos(), r.Pos(), Unescape(raw), tr), r)
    ensures SameStream(c, r) && r.idx == c.idx + |VisualText(colon, raw, tr)|
  {
    var c3 := VisualAlternative(colon, raw, VisualStop(tr), VisualMore(tr), c);
    match tr
    case None =>
      VisualOfPlain(c, raw, c3);
      r := c3;
    case Some(t) =>
      r := TransformPartsFind(c3, t);
      VisualOfTransform(c, raw, c3, t, r);
  }

  /**
    `${VISUAL:raw}` and `${VISUAL:raw/search/replace/options}` parse back
    into the unescaped `raw` and the transformation; the colon may be left
    out when `raw` is empty. `raw` holds no unescaped `/` or `}` and does not
    end in a backslash, which would escape the stop character after it.
   */
  lemma VisualParses(colon: bool, raw: string, tr: Option<Transform>, rest: string, offset: Position)
    requires colon || raw == []
    requires StopBody(raw, VisualStop(tr), "/}")
    requires tr.Some? ==> PartsOk(tr.value)
    ensures var text := VisualText(colon, raw, tr) + rest;
      var c := Start(text, offset);
      && VisualStartsHere(c)
      && ParseVisual(c) ==
           Parsed(Visual(offset, PosAfter(offset, VisualText(colon, raw, tr)), Unescape(raw), tr),
                  CursorAt(text, offset, |VisualText(colon, raw, tr)|))
  {
    var text := VisualText(colon, raw, tr) + rest;
    var c := Start(text, offset);
    assert text[..|VisualText(colon, raw, tr)|] == VisualText(colon, raw, tr);
    var r := VisualFind(c, colon, raw, tr);
    CursorDetermined(r);
  }

  /** The driver hands a recognized visual placeholder to its parser. */
  lemma VisualDispatch(c: Cursor, indent: string)
    requires VisualStartsHere(c)
    ensures FirstMatch(c, 0) == Some(1) && ParseToken(AllowedTokens[1], c, indent) == ParseVisual(c)
  {
    RecognizedFirst(c, 1);
  }

  /** A visual placeholder followed by plain text tokenizes to that placeholder and the end-of-text token. */
  lemma VisualTokenizes(colon: bool, raw: string, tr: Option<Transform>, rest: string, indent: string, offset: Position)
    requires colon || raw == []
    requires StopBody(raw, VisualStop(tr), "/}")
    requires tr.Some? ==> PartsOk(tr.value)
    requires Plain(rest)
    ensures var text := VisualText(colon, raw, tr) + rest;
      var e := PosAfter(offset, text);
      Tokenize(text, indent, offset) ==
        Success([Visual(offset, PosAfter(offset, VisualText(colon, raw, tr)), Unescape(raw), tr), EndOfText(e, e)])
  {
    var text := VisualText(colon, raw, tr) + rest;
    var c := Start(text, offset);
    VisualParses(colon, raw, tr, rest, offset);
    VisualDispatch(c, indent);
    assert text[|VisualText(colon, raw, tr)|..] == rest;
    OneToken(c, 1, indent, Visual(offset, PosAfter(offset, VisualText(colon, raw, tr)), Unescape(raw), tr),
             CursorAt(text, offset, |VisualText(colon, raw, tr)|));
  }

  /** Any alternative text that does not end in a backslash, written out quoted, tokenizes back to itself. */
  lemma VisualQuotedTokenizes(x: string, tr: Option<Transform>, rest: string, indent: string, offset: Position)
    requires !EndsWithBackslash(x)
    requires tr.Some? ==> PartsOk(tr.value)
    requires Plain(rest)
    ensures var q := VisualText(true, Quote(x, "/}"), tr);
      var e := PosAfter(offset, q + rest);
      Tokenize(q + rest, indent, offset) == Success([Visual(offset, PosAfter(offset, q), x, tr), EndOfText(e, e)])
  {
    QuotedAlternative(x, VisualStop(tr));
    VisualTokenizes(true, Quote(x, "/}"), tr, rest, indent, offset);
  }

  /** `${VISUAL:raw/`, the first `k` parts of `t`, and then `y` to the end of the text. */
  function VisualUnclosedText(colon: bool, raw: string, t: Transform, k: nat, y: string): string {
    VisualOpen(colon) + ((raw + "/") + (PartsPrefix(t, k) + y))
  }

  /**
    A transformation after `${VISUAL...` that runs out of input in any of
    its three parts is an error that ends tokenization: the source raises
    `RuntimeError` here, where every other parser that runs out simply ends
    the text.
   */
  lemma VisualMalformed(colon: bool, raw: string, t: Transform, k: nat, y: string, indent: string, offset: Position)
    requires colon || raw == []
    requires StopBody(raw, '/', "/}")
    requires k <= 2 && PrefixOk(t, k) && Unfinished(y, k)
    ensures Tokenize(VisualUnclosedText(colon, raw, t, k, y), indent, offset) == Failure(MalformedVisual)
  {
    var text := VisualUnclosedText(colon, raw, t, k, y);
    var c := Start(text, offset);
    assert text[..|text|] == text;
    VisualMalformedAt(c, colon, raw, t, k, y);
    VisualDispatch(c, indent);
    FatalStops(c, 1, indent, MalformedVisual);
  }

  /** `VisualMalformed` at the cursor: the placeholder runs to the end of the text. */
  lemma VisualMalformedAt(c: Cursor, colon: bool, raw: string, t: Transform, k: nat, y: string)
    requires colon || raw == []
    requires StopBody(raw, '/', "/}")
    requires k <= 2 && PrefixOk(t, k) && Unfinished(y, k)
    requires Ahead(c, VisualUnclosedText(colon, raw, t, k, y))
    requires c.idx + |VisualUnclosedText(colon, raw, t, k, y)| == |c.text|
    ensures VisualStartsHere(c) && ParseVisual(c) == Fatal(MalformedVisual)
  {
    var c3 := VisualAlternative(colon, raw, '/', PartsPrefix(t, k) + y, c);
    var at := PartsMissing(c3, t, k, y);
    VisualOfMalformed(c, raw, c3, at);
  }
}
