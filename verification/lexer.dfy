/**
  The driver of `_lexer.py`: try the token kinds in priority order at the
  cursor, parse the first one that starts there, discard one character when
  none does, and finish with one end-of-text token when the input runs out
  (whether between tokens or inside one).
 */
module Lexer {
  import opened Results
  import opened TextCursor
  import opened TextUtil
  import opened Scanners
  import opened Tokens

  /** The token classes the driver tries. */
  datatype Kind =
    | EscapeCharKind
    | VisualKind
    | TransformationKind
    | TabStopKind
    | MirrorKind
    | PythonCodeKind
    | VimLCodeKind
    | ShellCodeKind

  /** The order in which the driver tries the token kinds. */
  const AllowedTokens: seq<Kind> := [
    EscapeCharKind, VisualKind, TransformationKind, TabStopKind,
    MirrorKind, PythonCodeKind, VimLCodeKind, ShellCodeKind
  ]

  /** Each kind's `starts_here`. */
  predicate StartsHere(k: Kind, c: Cursor) {
    match k
    case EscapeCharKind => EscapeCharStartsHere(c)
    case VisualKind => VisualStartsHere(c)
    case TransformationKind => TransformationStartsHere(c)
    case TabStopKind => TabStopStartsHere(c)
    case MirrorKind => MirrorStartsHere(c)
    case PythonCodeKind => PythonCodeStartsHere(c)
    case VimLCodeKind => VimLCodeStartsHere(c)
    case ShellCodeKind => ShellCodeStartsHere(c)
  }

  /** `t` is a token of kind `k`; the end-of-text token is of no kind the driver tries. */
  predicate OfKind(t: Token, k: Kind) {
    match k
    case EscapeCharKind => t.EscapeChar?
    case VisualKind => t.Visual?
    case TransformationKind => t.Transformation?
    case TabStopKind => t.TabStop?
    case MirrorKind => t.Mirror?
    case PythonCodeKind => t.PythonCode?
    case VimLCodeKind => t.VimLCode?
    case ShellCodeKind => t.ShellCode?
  }

  /** The index of the first kind in `AllowedTokens[i..]` that starts at `c`, if any. */
  function FirstMatch(c: Cursor, i: nat): (r: Option<nat>)
    requires i <= |AllowedTokens|
    ensures r.Some? ==> i <= r.value < |AllowedTokens| && StartsHere(AllowedTokens[r.value], c)
    ensures r.Some? ==> forall j :: i <= j < r.value ==> !StartsHere(AllowedTokens[j], c)
    ensures r.None? <==> forall j :: i <= j < |AllowedTokens| ==> !StartsHere(AllowedTokens[j], c)
    decreases |AllowedTokens| - i
  {
    if i == |AllowedTokens| then None
    else if StartsHere(AllowedTokens[i], c) then Some(i)
    else FirstMatch(c, i + 1)
  }

  /** Constructing a token of kind `k` at `c`: `Token.__init__` around the kind's `_parse`. */
  function ParseToken(k: Kind, c: Cursor, indent: string): (o: Outcome)
    requires StartsHere(k, c)
    ensures Spans(c, o)
    ensures o.Parsed? ==> OfKind(o.token, k)
    ensures o.Fatal? ==> (k == VisualKind && o.error == MalformedVisual) || (k == PythonCodeKind && o.error == EmptyPythonCode)
  {
    match k
    case EscapeCharKind => ParseEscapeChar(c)
    case VisualKind => ParseVisual(c)
    case TransformationKind => ParseTransformation(c)
    case TabStopKind => ParseTabStop(c)
    case MirrorKind => ParseMirror(c)
    case PythonCodeKind => ParsePythonCode(c, indent)
    case VimLCodeKind => ParseVimLCode(c)
    case ShellCodeKind => ParseShellCode(c)
  }

  /** The end-of-text token at the cursor where the input ran out. */
  function EndToken(at: Cursor): Token {
    EndOfText(at.Pos(), at.Pos())
  }

  /**
    What every successful tokenization from `c` looks like: exactly one
    end-of-text token, last, sitting at the position after the whole text;
    every other token spans a non-empty stretch; and the spans follow one
    another in order from the cursor on.
   */
  predicate WellFormed(c: Cursor, ts: seq<Token>) {
    && |ts| >= 1
    && ts[|ts| - 1] == EndOfText(PosAfter(c.offset, c.text), PosAfter(c.offset, c.text))
    && (forall i :: 0 <= i < |ts| - 1 ==> !ts[i].EndOfText? && PosLt(ts[i].start, ts[i].end))
    && PosLe(c.Pos(), ts[0].start)
    && (forall i :: 0 <= i < |ts| - 1 ==> PosLe(ts[i].end, ts[i + 1].start))
  }

  /** The end position of a stream is where its whole text leads. */
  lemma EndPosition(at: Cursor)
    requires at.idx == |at.text|
    ensures at.Pos() == PosAfter(at.offset, at.text)
  {
    Consumed(at);
    assert at.text[..at.idx] == at.text;
  }

  lemma WellFormedEnd(c: Cursor, at: Cursor)
    requires SameStream(c, at) && c.idx <= at.idx == |c.text|
    ensures WellFormed(c, [EndToken(at)])
  {
    EndPosition(at);
    PosOrder(c, at);
  }

  lemma WellFormedSkip(c: Cursor, c1: Cursor, ts: seq<Token>)
    requires SameStream(c, c1) && c.idx <= c1.idx && WellFormed(c1, ts)
    ensures WellFormed(c, ts)
  {
    PosOrder(c, c1);
  }

  lemma WellFormedCons(c: Cursor, t: Token, c1: Cursor, ts: seq<Token>)
    requires SameStream(c, c1) && c.idx < c1.idx && t.start == c.Pos() && t.end == c1.Pos() && !t.EndOfText?
    requires WellFormed(c1, ts)
    ensures WellFormed(c, [t] + ts)
  {
    PosOrder(c, c1);
    var r := [t] + ts;
    assert forall i :: 1 <= i < |r| ==> r[i] == ts[i - 1];
  }

  /**
    The loop of `tokenize` from cursor `c`. A kind's parser that runs out of
    input ends the loop like running out between tokens does: one end-of-text
    token at the end of the text. A `RuntimeError` or `IndexError` inside a
    parser ends tokenization with that error.
   */
  function TokenizeFrom(c: Cursor, indent: string): (r: Result<seq<Token>, LexError>)
    ensures r.Success? ==> WellFormed(c, r.value)
    decreases |c.text| - c.idx
  {
    match FirstMatch(c, 0)
    case None =>
      (match Next(c)
       case EndOfInput(at) =>
         WellFormedEnd(c, at);
         Success([EndToken(at)])
       case Scanned(_, c1) =>
         match TokenizeFrom(c1, indent)
         case Failure(e) => Failure(e)
         case Success(ts) =>
           WellFormedSkip(c, c1, ts);
           Success(ts))
    case Some(i) =>
      match ParseToken(AllowedTokens[i], c, indent)
      case Fatal(e) => Failure(e)
      case Exhausted(at) =>
        WellFormedEnd(c, at);
        Success([EndToken(at)])
      case Parsed(t, c1) =>
        match TokenizeFrom(c1, indent)
        case Failure(e) => Failure(e)
        case Success(ts) =>
          WellFormedCons(c, t, c1, ts);
          Success([t] + ts)
  }

  /** `tokenize(text, indent, offset)`: the tokens of `text`, whose first character sits at `offset`. */
  function Tokenize(text: string, indent: string, offset: Position): (r: Result<seq<Token>, LexError>)
    ensures r.Success? ==> WellFormed(Start(text, offset), r.value)
    ensures r.Success? ==> PosLe(offset, r.value[0].start)
  {
    TokenizeFrom(Start(text, offset), indent)
  }
}
