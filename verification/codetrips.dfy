/**
  Round trips of the code tokens and the escape token: shell, VimL and
  Python code written out between backticks are read back verbatim (escapes
  kept), Python code then has its indentation stripped, and an escaped
  character comes back as itself.
 */
module CodeTrips {
  import opened Results
  import opened TextCursor
  import opened TextUtil
  import opened Scanners
  import opened Tokens
  import opened Lexer
  import opened LexerFacts
  import opened RoundTrips

  // ---------------------------------------------------------------------------
  // Escaped characters

  /** The driver hands a recognized escape to its parser. */
  lemma EscapeCharDispatch(c: Cursor, indent: string)
    requires EscapeCharStartsHere(c)
    ensures FirstMatch(c, 0) == Some(0) && ParseToken(AllowedTokens[0], c, indent) == ParseEscapeChar(c)
  {
  }

  /** A backslash and one of `{}\$`` followed by plain text tokenize to that character alone and the end-of-text token. */
  lemma EscapeCharTokenizes(ch: char, rest: string, indent: string, offset: Position)
    requires ch in DefaultEscapable && Plain(rest)
    ensures var text := ['\\', ch] + rest;
      var e := PosAfter(offset, text);
      Tokenize(text, indent, offset) == Success([EscapeChar(offset, PosAfter(offset, ['\\', ch]), [ch]), EndOfText(e, e)])
  {
    var text := ['\\', ch] + rest;
    var c := Start(text, offset);
    EscapeAt(c, DefaultEscapable);
    EscapeCharDispatch(c, indent);
    var r := ParseEscapeChar(c).rest;
    assert text[..2] == ['\\', ch] && text[2..] == rest;
    CursorDetermined(r);
    OneToken(c, 0, indent, EscapeChar(offset, PosAfter(offset, ['\\', ch]), [ch]), r);
  }

  // ---------------------------------------------------------------------------
  // Code between backticks

  /** Code without an unescaped backtick or a final backslash, followed by a backtick, is scanned back verbatim. */
  lemma CodePartFind(c: Cursor, v: string) returns (r: Cursor)
    requires StopBody(v, '`', "`") && Ahead(c, v + "`")
    ensures ScanTill(c, "`") == Scanned((v, '`'), r)
    ensures SameStream(c, r) && r.idx == c.idx + |v| + 1
  {
    ScanTillFinds(c, "`", v, '`');
    r := ScanTill(c, "`").rest;
  }

  /** `` `v` ``: shell code. */
  function ShellText(v: string): string {
    "`" + (v + "`")
  }

  /** Shell code that would itself start with `!p` or `!v` and a whitespace character is Python or VimL code instead. */
  predicate CodeLike(v: string) {
    |v| >= 3 && v[0] == '!' && (v[1] == 'p' || v[1] == 'v') && IsSpace(v[2])
  }

  /** How the steps of the shell-code parser compose. */
  lemma ShellOf(c: Cursor, v: string, r: Cursor)
    requires ShellCodeStartsHere(c) && ScanTill(Skip(c, 1), "`") == Scanned((v, '`'), r)
    ensures ParseShellCode(c) == Parsed(ShellCode(c.Pos(), r.Pos(), v), r)
  {
  }

  /** Written-out shell code anywhere in the stream parses back into the same code. */
  lemma ShellFind(c: Cursor, v: string) returns (r: Cursor)
    requires StopBody(v, '`', "`") && Ahead(c, ShellText(v))
    ensures ShellCodeStartsHere(c)
    ensures ParseShellCode(c) == Parsed(ShellCode(c.Pos(), r.Pos(), v), r)
    ensures SameStream(c, r) && r.idx == c.idx + |ShellText(v)|
  {
    AheadSplit(c.text, c.idx, "`", v + "`");
    var c1 := Skip(c, 1);
    AheadAfter(c, "`", v + "`", c1);
    r := CodePartFind(c1, v);
    ShellOf(c, v, r);
  }

  /** Shell code is what the driver picks when the text is not Python or VimL code. */
  lemma ShellDispatch(c: Cursor, indent: string)
    requires ShellCodeStartsHere(c) && !PythonCodeStartsHere(c) && !VimLCodeStartsHere(c)
    ensures FirstMatch(c, 0) == Some(7) && ParseToken(AllowedTokens[7], c, indent) == ParseShellCode(c)
  {
    forall j | 0 <= j < 7
      ensures !StartsHere(AllowedTokens[j], c)
    {
      StartFacts(c);
    }
  }

  /** Shell code that does not look like Python or VimL code is not taken for either. */
  lemma ShellNotCode(c: Cursor, v: string)
    requires Ahead(c, ShellText(v)) && !CodeLike(v)
    ensures !PythonCodeStartsHere(c) && !VimLCodeStartsHere(c)
  {
    CodeWindow(c.text, c.idx, PeekN(c, 4), 'p');
    CodeWindow(c.text, c.idx, PeekN(c, 4), 'v');
    NoCodePrefix(c.text, c.idx, v, 'p');
    NoCodePrefix(c.text, c.idx, v, 'v');
  }

  /** `ShellNotCode` in the text's terms. */
  lemma NoCodePrefix(t: string, i: nat, v: string, letter: char)
    requires i + |ShellText(v)| <= |t| && t[i..i + |ShellText(v)|] == ShellText(v)
    requires !CodeLike(v) && (letter == 'p' || letter == 'v')
    ensures !CodePrefixAt(t, i, letter)
  {
    var w := ShellText(v);
    assert forall k :: 0 <= k < |w| ==> t[i + k] == w[k];
    if |v| >= 3 {
      assert w[1] == v[0] && w[2] == v[1] && w[3] == v[2];
    } else {
      assert w[|v| + 1] == '`';
    }
  }

  /** `` `v` `` followed by plain text tokenizes to that shell code, escapes kept, and the end-of-text token. */
  lemma ShellTokenizes(v: string, rest: string, indent: string, offset: Position)
    requires StopBody(v, '`', "`") && !CodeLike(v) && Plain(rest)
    ensures var text := ShellText(v) + rest;
      var e := PosAfter(offset, text);
      Tokenize(text, indent, offset) == Success([ShellCode(offset, PosAfter(offset, ShellText(v)), v), EndOfText(e, e)])
  {
    var text := ShellText(v) + rest;
    var c := Start(text, offset);
    assert text[..|ShellText(v)|] == ShellText(v);
    var r := ShellFind(c, v);
    ShellNotCode(c, v);
    ShellDispatch(c, indent);
    assert text[|ShellText(v)|..] == rest;
    CursorDetermined(r);
    OneToken(c, 7, indent, ShellCode(offset, PosAfter(offset, ShellText(v)), v), r);
  }

  /** `` `!v`` and a whitespace character, then the code: VimL code. */
  function VimLText(ws: char, v: string): string {
    ("`!v" + [ws]) + (v + "`")
  }

  /** How the steps of the VimL-code parser compose. */
  lemma VimLOf(c: Cursor, v: string, r: Cursor)
    requires VimLCodeStartsHere(c) && ScanTill(Skip(c, 4), "`") == Scanned((v, '`'), r)
    ensures ParseVimLCode(c) == Parsed(VimLCode(c.Pos(), r.Pos(), v), r)
  {
  }

  /** A code prefix written out in the text is recognized. */
  lemma PrefixAhead(c: Cursor, letter: char, ws: char, more: string)
    requires IsSpace(ws) && Ahead(c, (['`', '!', letter] + [ws]) + more)
    ensures CodePrefixAt(c.text, c.idx, letter) && c.text[c.idx + 3] == ws
  {
    AheadSplit(c.text, c.idx, ['`', '!', letter] + [ws], more);
    var i := c.idx;
    assert c.text[i..i + 4] == ['`', '!', letter, ws];
    assert c.text[i] == '`' && c.text[i + 1] == '!' && c.text[i + 2] == letter && c.text[i + 3] == ws;
  }

  /** Written-out VimL code anywhere in the stream parses back into the same code; the whitespace after `` `!v`` is not part of it. */
  lemma VimLFind(c: Cursor, ws: char, v: string) returns (r: Cursor)
    requires IsSpace(ws) && StopBody(v, '`', "`") && Ahead(c, VimLText(ws, v))
    ensures VimLCodeStartsHere(c)
    ensures ParseVimLCode(c) == Parsed(VimLCode(c.Pos(), r.Pos(), v), r)
    ensures SameStream(c, r) && r.idx == c.idx + |VimLText(ws, v)|
  {
    var h := "`!v" + [ws];
    PrefixAhead(c, 'v', ws, v + "`");
    StartFacts(c);
    AheadSplit(c.text, c.idx, h, v + "`");
    var c1 := Skip(c, 4);
    AheadAfter(c, h, v + "`", c1);
    r := CodePartFind(c1, v);
    VimLOf(c, v, r);
  }

  /** `` `!v`` code followed by plain text tokenizes to that VimL code and the end-of-text token. */
  lemma VimLTokenizes(ws: char, v: string, rest: string, indent: string, offset: Position)
    requires IsSpace(ws) && StopBody(v, '`', "`") && Plain(rest)
    ensures var text := VimLText(ws, v) + rest;
      var e := PosAfter(offset, text);
      Tokenize(text, indent, offset) == Success([VimLCode(offset, PosAfter(offset, VimLText(ws, v)), v), EndOfText(e, e)])
  {
    var text := VimLText(ws, v) + rest;
    var c := Start(text, offset);
    assert text[..|VimLText(ws, v)|] == VimLText(ws, v);
    var r := VimLFind(c, ws, v);
    RecognizedFirst(c, 6);
    assert text[|VimLText(ws, v)|..] == rest;
    CursorDetermined(r);
    OneToken(c, 6, indent, VimLCode(offset, PosAfter(offset, VimLText(ws, v)), v), r);
  }

  // ---------------------------------------------------------------------------
  // Python code

  /** `` `!p`` and a whitespace character, then the code: Python code. */
  function PythonText(ws: char, v: string): string {
    ("`!p" + [ws]) + (v + "`")
  }

  /** The code the scan returns: a space or tab after `` `!p`` is dropped, any other whitespace is kept. */
  function PythonRaw(ws: char, v: string): string {
    if ws == ' ' || ws == '\t' then v else [ws] + v
  }

  /** How the steps of the Python-code parser compose. */
  lemma PythonOf(c: Cursor, indent: string, raw: string, r: Cursor)
    requires PythonCodeStartsHere(c) && ScanTill(PythonHead(c), "`") == Scanned((raw, '`'), r)
    ensures ParsePythonCode(c, indent) ==
      match StripIndent(raw, indent)
      case None => Fatal(EmptyPythonCode)
      case Some(code) => Parsed(PythonCode(c.Pos(), r.Pos(), code, indent), r)
  {
  }

  /** The Python prefix is recognized, and the code the parser scans follows the part of it that is skipped. */
  lemma PythonHeadFind(c: Cursor, ws: char, v: string)
    requires IsSpace(ws) && Ahead(c, PythonText(ws, v))
    ensures PythonCodeStartsHere(c)
    ensures Ahead(PythonHead(c), PythonRaw(ws, v) + "`")
    ensures PythonHead(c).idx + |PythonRaw(ws, v)| + 1 == c.idx + |PythonText(ws, v)|
  {
    PrefixAhead(c, 'p', ws, v + "`");
    CodeWindow(c.text, c.idx, PeekN(c, 4), 'p');
    var c2 := PythonHead(c);
    if ws == ' ' || ws == '\t' {
      assert c2.idx == c.idx + 4;
      AheadAfter(c, "`!p" + [ws], v + "`", c2);
    } else {
      assert c2.idx == c.idx + 3;
      PythonRest(c, c2, ws, v);
    }
  }

  /** Past `` `!p``, the whitespace and the code follow. */
  lemma PythonRest(c: Cursor, c2: Cursor, ws: char, v: string)
    requires Ahead(c, PythonText(ws, v)) && SameStream(c, c2) && c2.idx == c.idx + 3
    ensures Ahead(c2, ([ws] + v) + "`")
  {
    assert PythonText(ws, v) == "`!p" + (([ws] + v) + "`");
    AheadAfter(c, "`!p", ([ws] + v) + "`", c2);
  }

  /** Whitespace other than a space or a tab starts the code, which keeps it free of unescaped backticks and final backslashes. */
  lemma PythonRawBody(ws: char, v: string)
    requires IsSpace(ws) && StopBody(v, '`', "`")
    ensures StopBody(PythonRaw(ws, v), '`', "`")
  {
    if !(ws == ' ' || ws == '\t') {
      assert ([ws] + v)[1..] == v;
    }
  }

  /** Written-out Python code anywhere in the stream is scanned back and then has its indentation stripped. */
  lemma PythonFind(c: Cursor, ws: char, v: string, indent: string) returns (r: Cursor)
    requires IsSpace(ws) && StopBody(v, '`', "`") && Ahead(c, PythonText(ws, v))
    ensures PythonCodeStartsHere(c)
    ensures ParsePythonCode(c, indent) ==
      match StripIndent(PythonRaw(ws, v), indent)
      case None => Fatal(EmptyPythonCode)
      case Some(code) => Parsed(PythonCode(c.Pos(), r.Pos(), code, indent), r)
    ensures SameStream(c, r) && r.idx == c.idx + |PythonText(ws, v)|
  {
    var raw := PythonRaw(ws, v);
    PythonHeadFind(c, ws, v);
    var c2 := PythonHead(c);
    PythonRawBody(ws, v);
    r := CodePartFind(c2, raw);
    PythonOf(c, indent, raw, r);
  }

  /**
    `` `!p`` code followed by plain text tokenizes to that Python code with
    its indentation stripped, or fails when the code is empty and the indent
    is not.
   */
  lemma PythonTokenizes(ws: char, v: string, rest: string, indent: string, offset: Position)
    requires IsSpace(ws) && StopBody(v, '`', "`") && Plain(rest)
    ensures var text := PythonText(ws, v) + rest;
      var e := PosAfter(offset, text);
      Tokenize(text, indent, offset) ==
        match StripIndent(PythonRaw(ws, v), indent)
        case None => Failure(EmptyPythonCode)
        case Some(code) => Success([PythonCode(offset, PosAfter(offset, PythonText(ws, v)), code, indent), EndOfText(e, e)])
  {
    var text := PythonText(ws, v) + rest;
    var c := Start(text, offset);
    assert text[..|PythonText(ws, v)|] == PythonText(ws, v);
    assert text[|PythonText(ws, v)|..] == rest;
    var r := PythonFind(c, ws, v, indent);
    CursorDetermined(r);
    PythonDispatch(c, indent);
    match StripIndent(PythonRaw(ws, v), indent)
    case None =>
      FatalStops(c, 5, indent, EmptyPythonCode);
    case Some(code) =>
      OneToken(c, 5, indent, PythonCode(offset, PosAfter(offset, PythonText(ws, v)), code, indent), r);
  }

  /** The driver hands recognized Python code to its parser. */
  lemma PythonDispatch(c: Cursor, indent: string)
    requires PythonCodeStartsHere(c)
    ensures FirstMatch(c, 0) == Some(5) && ParseToken(AllowedTokens[5], c, indent) == ParsePythonCode(c, indent)
  {
    RecognizedFirst(c, 5);
  }

  /** `` `!p `` with nothing before the closing backtick fails under a non-empty indent: there is no first line. */
  lemma EmptyPythonFails(rest: string, indent: string, offset: Position)
    requires |indent| > 0 && Plain(rest)
    ensures Tokenize(PythonText(' ', []) + rest, indent, offset) == Failure(EmptyPythonCode)
  {
    PythonTokenizes(' ', [], rest, indent, offset);
  }

  /**
    Stripping undoes indenting: code whose later lines all carry the indent
    comes back with the indent removed from them, and with a line feed after
    the first line even when there are no later lines.
   */
  lemma StripIndentRestores(first: string, more: seq<string>, indent: string)
    requires |indent| > 0 && '\n' !in indent && '\n' !in first
    requires forall i :: 0 <= i < |more| ==> '\n' !in more[i]
    requires first != [] || more != []
    ensures StripIndent(JoinLines([first] + IndentEach(more, indent)), indent) == Some(first + "\n" + JoinLines(more))
  {
    var ls := [first] + IndentEach(more, indent);
    var s := JoinLines(ls);
    IndentedLines(first, more, indent);
    SplitJoin(ls);
    JoinLinesLast(ls);
    assert ls[1..] == IndentEach(more, indent);
    SplitLinesUnterminated(s);
    DropIndent(more, indent);
  }

  /**
    `StripIndent` on any code under a non-empty indent, written as its first
    line, its later lines and whether it ends in a line feed: the first line
    is kept and followed by a line feed, every later line loses `|indent|`
    leading characters (a shorter one, such as a blank line, becomes empty),
    and a final line feed is dropped. By `SplitLinesCanonical` every
    non-empty code has this form.
   */
  lemma StripIndentLines(first: string, ls: seq<string>, nl: bool, indent: string)
    requires |indent| > 0 && '\n' !in first
    requires forall i :: 0 <= i < |ls| ==> '\n' !in ls[i]
    requires nl || (if ls == [] then first else ls[|ls| - 1]) != []
    ensures StripIndent(JoinLines([first] + ls) + (if nl then "\n" else ""), indent) ==
              Some(first + "\n" + JoinLines(DropEach(ls, |indent|)))
  {
    var all := [first] + ls;
    forall i | 0 <= i < |all|
      ensures '\n' !in all[i]
    {
      if i > 0 {
        assert all[i] == ls[i - 1];
      }
    }
    assert all[|all| - 1] == (if ls == [] then first else ls[|ls| - 1]);
    SplitLinesOf(all, nl);
    assert all[1..] == ls;
  }

  /** The lines of an indented block hold no line break. */
  lemma IndentedLines(first: string, more: seq<string>, indent: string)
    requires '\n' !in indent && '\n' !in first
    requires forall i :: 0 <= i < |more| ==> '\n' !in more[i]
    ensures var ls := [first] + IndentEach(more, indent);
      forall i :: 0 <= i < |ls| ==> '\n' !in ls[i]
  {
    var ls := [first] + IndentEach(more, indent);
    forall i | 0 <= i < |ls|
      ensures '\n' !in ls[i]
    {
      if i > 0 {
        assert ls[i] == indent + more[i - 1];
      }
    }
  }

  /** Dropping the indent's length from every indented line gives back the lines. */
  lemma DropIndent(more: seq<string>, indent: string)
    ensures DropEach(IndentEach(more, indent), |indent|) == more
  {
    forall i | 0 <= i < |more|
      ensures DropPrefix(IndentEach(more, indent)[i], |indent|) == more[i]
    {
      assert IndentEach(more, indent)[i] == indent + more[i];
      assert (indent + more[i])[|indent|..] == more[i];
    }
  }
}
