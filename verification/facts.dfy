/**
  Properties of the whole tokenizer: which kinds can compete for the same
  position, what the lookahead window lets through, and what the driver does
  with text that holds no token.
 */
module LexerFacts {
  import opened Results
  import opened TextCursor
  import opened TextUtil
  import opened Scanners
  import opened Tokens
  import opened Lexer

  /** `` `!`` and `letter` and a whitespace character at `i`: the prefix of Python (`p`) and VimL (`v`) code. */
  predicate CodePrefixAt(text: string, i: nat, letter: char) {
    i + 3 < |text| && text[i] == '`' && text[i + 1] == '!' && text[i + 2] == letter && IsSpace(text[i + 3])
  }

  /**
    What each recognizer sees, in the text's terms: the characters that tell
    the kinds apart.
   */
  lemma StartFacts(c: Cursor)
    ensures EscapeCharStartsHere(c) ==> c.idx + 1 < |c.text| && c.text[c.idx] == '\\'
    ensures VisualStartsHere(c) ==>
      c.idx + 2 < |c.text| && c.text[c.idx] == '$' && c.text[c.idx + 1] == '{' && c.text[c.idx + 2] == 'V'
    ensures TransformationStartsHere(c) ==> DollarFormAt(c.text, c.idx, "/") && IsDigit(c.text[c.idx + 2])
    ensures TabStopStartsHere(c) ==> DollarFormAt(c.text, c.idx, ":}") && IsDigit(c.text[c.idx + 2])
    ensures MirrorStartsHere(c) ==> c.idx + 1 < |c.text| && c.text[c.idx] == '$' && IsDigit(c.text[c.idx + 1])
    ensures PythonCodeStartsHere(c) <==> CodePrefixAt(c.text, c.idx, 'p')
    ensures VimLCodeStartsHere(c) <==> CodePrefixAt(c.text, c.idx, 'v')
    ensures ShellCodeStartsHere(c) ==> c.idx < |c.text| && c.text[c.idx] == '`'
  {
    if EscapeCharStartsHere(c) {
      EscapeAt(c, DefaultEscapable);
    }
    DollarStartFacts(c);
    CodeWindow(c.text, c.idx, PeekN(c, 4), 'p');
    CodeWindow(c.text, c.idx, PeekN(c, 4), 'v');
  }

  /** The `$`-kinds of `StartFacts`. */
  lemma DollarStartFacts(c: Cursor)
    ensures VisualStartsHere(c) ==>
      c.idx + 2 < |c.text| && c.text[c.idx] == '$' && c.text[c.idx + 1] == '{' && c.text[c.idx + 2] == 'V'
    ensures TransformationStartsHere(c) ==> DollarFormAt(c.text, c.idx, "/") && IsDigit(c.text[c.idx + 2])
    ensures TabStopStartsHere(c) ==> DollarFormAt(c.text, c.idx, ":}") && IsDigit(c.text[c.idx + 2])
    ensures MirrorStartsHere(c) ==> c.idx + 1 < |c.text| && c.text[c.idx] == '$' && IsDigit(c.text[c.idx + 1])
  {
    if VisualStartsHere(c) {
      VisualStartFacts(c);
    }
    DollarDigitsStart(c, "/");
    DollarDigitsStart(c, ":}");
    if MirrorStartsHere(c) {
      WindowAt(c, Window, 0);
      WindowAt(c, Window, 1);
    }
  }

  lemma VisualStartFacts(c: Cursor)
    requires VisualStartsHere(c)
    ensures c.idx + 2 < |c.text| && c.text[c.idx] == '$' && c.text[c.idx + 1] == '{' && c.text[c.idx + 2] == 'V'
  {
    var w := PeekN(c, Window);
    assert w[..8][0] == w[0] && w[..8][1] == w[1] && w[..8][2] == w[2];
    WindowAt(c, Window, 0);
    WindowAt(c, Window, 1);
    WindowAt(c, Window, 2);
  }

  lemma DollarDigitsStart(c: Cursor, follow: string)
    ensures DollarBraceDigitsThen(PeekN(c, Window), follow) ==> DollarFormAt(c.text, c.idx, follow) && IsDigit(c.text[c.idx + 2])
  {
    if DollarBraceDigitsThen(PeekN(c, Window), follow) {
      DollarFormWindow(c, follow);
      DollarBraceDigitsAt(c, follow);
    }
  }

  /** The four-character window from `a` on holds the code prefix with `letter` exactly when the text does. */
  lemma CodeWindow(t: string, a: nat, v: string, letter: char)
    requires a + |v| <= |t| && v == t[a..a + |v|] && |v| <= 4 && (|v| == 4 || a + |v| == |t|)
    ensures (|v| == 4 && v[..3] == ['`', '!', letter] && IsSpace(v[3])) <==> CodePrefixAt(t, a, letter)
  {
    if |v| == 4 {
      assert v[..3] == [v[0], v[1], v[2]];
      assert v[0] == t[a] && v[1] == t[a + 1] && v[2] == t[a + 2] && v[3] == t[a + 3];
    }
  }

  /** No kind starts where none of `\`, `$` and the backtick is next. */
  lemma NoKindStarts(c: Cursor)
    requires c.idx == |c.text| || c.text[c.idx] !in "\\$`"
    ensures FirstMatch(c, 0).None?
  {
    forall j | 0 <= j < |AllowedTokens|
      ensures !StartsHere(AllowedTokens[j], c)
    {
      StartFacts(c);
    }
  }

  /**
    Text without a backslash, dollar or backtick holds no token: the driver
    discards all of it and yields just the end-of-text token at the end.
   */
  lemma {:induction false} PlainTextHasNoTokens(c: Cursor, indent: string)
    requires forall i :: c.idx <= i < |c.text| ==> c.text[i] !in "\\$`"
    ensures TokenizeFrom(c, indent) == Success([EndOfText(PosAfter(c.offset, c.text), PosAfter(c.offset, c.text))])
    decreases |c.text| - c.idx
  {
    NoKindStarts(c);
    match Next(c)
    case EndOfInput(at) =>
      EndPosition(at);
    case Scanned(_, c1) =>
      PlainTextHasNoTokens(c1, indent);
  }

  /**
    The `${`-forms with a number, in the text's terms: `${`, a run of one to
    seven digits (the ten-character window leaves room for no more), and a
    character of `follow` right after the run.
   */
  predicate DollarFormAt(text: string, i: nat, follow: string) {
    && i + 2 <= |text| && text[i] == '$' && text[i + 1] == '{'
    && var k := DigitRun(text, i + 2);
    && 1 <= k <= Window - 3 && i + 2 + k < |text| && text[i + 2 + k] in follow
  }

  /** The window recognizers of TabStop and Transformation accept exactly the `${`-forms with at most seven digits. */
  lemma DollarFormWindow(c: Cursor, follow: string)
    ensures DollarBraceDigitsThen(PeekN(c, Window), follow) <==> DollarFormAt(c.text, c.idx, follow)
  {
    DollarFormFits(c.text, c.idx, PeekN(c, Window), follow);
  }

  /** `DollarFormWindow` for the ten characters `w` of `t` from `a` on (fewer at the end of `t`). */
  lemma DollarFormFits(t: string, a: nat, w: string, follow: string)
    requires a + |w| <= |t| && w == t[a..a + |w|] && |w| <= Window && (|w| == Window || a + |w| == |t|)
    ensures DollarBraceDigitsThen(w, follow) <==> DollarFormAt(t, a, follow)
  {
    if DollarBraceDigitsThen(w, follow) {
      DollarDigitsWithin(t, a, w, follow);
    }
    if DollarFormAt(t, a, follow) {
      DollarFormInside(t, a, w, follow);
    }
  }

  /** A `${`-form with at most seven digits is seen by the window. */
  lemma DollarFormInside(t: string, a: nat, w: string, follow: string)
    requires a + |w| <= |t| && w == t[a..a + |w|] && |w| <= Window && (|w| == Window || a + |w| == |t|)
    requires DollarFormAt(t, a, follow)
    ensures DollarBraceDigitsThen(w, follow)
  {
    var k := DigitRun(t, a + 2);
    assert 2 + k < |w|;
    assert forall j :: 0 <= j < |w| ==> w[j] == t[a + j];
    assert w[2..2 + k] == t[a + 2..a + 2 + k];
    DigitRunEnds(w, 2, 2 + k);
  }

  /** Eight or more digits after `${` hide a tab stop or transformation from its recognizer. */
  lemma LongNumberNotRecognized(c: Cursor)
    requires c.idx + 2 <= |c.text| && DigitRun(c.text, c.idx + 2) >= 8
    ensures !TabStopStartsHere(c) && !TransformationStartsHere(c)
  {
    DollarFormWindow(c, ":}");
    DollarFormWindow(c, "/");
  }

  /** At `${` with eight or more digits no kind matches at all: a mirror needs a digit right after `$`. */
  lemma LongNumberNoKind(c: Cursor)
    requires c.idx + 2 <= |c.text| && c.text[c.idx] == '$' && c.text[c.idx + 1] == '{'
    requires DigitRun(c.text, c.idx + 2) >= 8
    ensures FirstMatch(c, 0).None?
  {
    LongNumberNotRecognized(c);
    forall j | 0 <= j < |AllowedTokens|
      ensures !StartsHere(AllowedTokens[j], c)
    {
      StartFacts(c);
    }
  }

  /**
    Priority only matters for the code kinds: whenever two kinds start at the
    same place, they are Python or VimL code against shell code, and the
    earlier one in the order wins.
   */
  lemma OnlyCodeKindsOverlap(c: Cursor, i: nat, j: nat)
    requires i < j < |AllowedTokens|
    ensures StartsHere(AllowedTokens[i], c) && StartsHere(AllowedTokens[j], c) ==>
      && AllowedTokens[j] == ShellCodeKind
      && (AllowedTokens[i] == PythonCodeKind || AllowedTokens[i] == VimLCodeKind)
  {
    StartFacts(c);
  }

  /** Any kind but shell code is parsed wherever its recognizer accepts: no earlier kind can claim the position. */
  lemma RecognizedFirst(c: Cursor, i: nat)
    requires i < |AllowedTokens| && StartsHere(AllowedTokens[i], c) && AllowedTokens[i] != ShellCodeKind
    ensures FirstMatch(c, 0) == Some(i)
  {
    forall j | 0 <= j < i
      ensures !StartsHere(AllowedTokens[j], c)
    {
      OnlyCodeKindsOverlap(c, j, i);
    }
  }

  /** Python and VimL code also look like shell code at their start; their place in the order is what makes them win. */
  lemma CodeShadowsShell(c: Cursor)
    requires PythonCodeStartsHere(c) || VimLCodeStartsHere(c)
    ensures ShellCodeStartsHere(c)
    ensures FirstMatch(c, 0) == Some(if PythonCodeStartsHere(c) then 5 else 6)
  {
    StartFacts(c);
  }
}
