/**
  The character stream of the lexer (`_TextIterator` in `_lexer.py`): an
  immutable text, an index into it, and the (line, column) position that the
  stream keeps up to date as characters are consumed.
 */
module TextCursor {
  import opened Results

  /** A (line, column) coordinate; both components are those of the caller's offset plus what was consumed. */
  datatype Position = Position(line: int, col: int)

  /** Lexicographic order on positions. */
  predicate PosLe(a: Position, b: Position) {
    a.line < b.line || (a.line == b.line && a.col <= b.col)
  }

  predicate PosLt(a: Position, b: Position) {
    PosLe(a, b) && a != b
  }

  /** The reference meaning of a position: a line feed starts a new line, anything else moves one column right. */
  function AdvanceChar(p: Position, ch: char): Position {
    if ch == '\n' then Position(p.line + 1, 0) else Position(p.line, p.col + 1)
  }

  /** The position reached from `p` after reading all of `s`. */
  function PosAfter(p: Position, s: string): Position
    decreases |s|
  {
    if s == [] then p else AdvanceChar(PosAfter(p, s[..|s| - 1]), s[|s| - 1])
  }

  /**
    The stream's state. `offset` is the position handed to the constructor;
    `line` and `col` are the fields the stream updates itself.
   */
  datatype TextIterator = TextIterator(text: string, offset: Position, idx: nat, line: int, col: int)
  {
    function Pos(): Position {
      Position(line, col)
    }
  }

  /** The position reached from `p` after reading the first `i` characters of `text`. */
  function PosAt(text: string, p: Position, i: nat): Position
    requires i <= |text|
  {
    if i == 0 then p else AdvanceChar(PosAt(text, p, i - 1), text[i - 1])
  }

  /** Reading a prefix character by character is reading the prefix. */
  lemma {:induction false} PosAtPrefix(text: string, p: Position, i: nat)
    requires i <= |text|
    ensures PosAt(text, p, i) == PosAfter(p, text[..i])
  {
    if i > 0 {
      PosAtPrefix(text, p, i - 1);
      assert text[..i][..i - 1] == text[..i - 1];
    }
  }

  /** The stream invariant: the index lies within the text and the tracked position is the one the consumed prefix reaches. */
  predicate Tracking(it: TextIterator) {
    it.idx <= |it.text| && it.Pos() == PosAt(it.text, it.offset, it.idx)
  }

  type Cursor = it: TextIterator | Tracking(it) witness TextIterator([], Position(0, 0), 0, 0, 0)

  /** Two cursors over the same stream. */
  predicate SameStream(a: Cursor, b: Cursor) {
    a.text == b.text && a.offset == b.offset
  }

  /** The result of consuming from the stream: a value and the advanced cursor, or the end-of-input signal (Python's `StopIteration`) at the exhausted cursor. */
  datatype Scan<+T> = Scanned(value: T, rest: Cursor) | EndOfInput(at: Cursor)

  /** A fresh stream over `text`, starting at `offset`. */
  function Start(text: string, offset: Position): (c: Cursor)
    ensures c.text == text && c.offset == offset && c.idx == 0
    ensures c.Pos() == offset
  {
    TextIterator(text, offset, 0, offset.line, offset.col)
  }

  /** The source's line-break test: membership of one character in ('\n', '\r\n'). */
  predicate IsLineBreak(ch: char) {
    [ch] == "\n" || [ch] == "\r\n"
  }

  /** `_TextIterator.next`: consume one character. */
  function Next(c: Cursor): (r: Scan<char>)
    ensures r.EndOfInput? <==> c.idx == |c.text|
    ensures r.EndOfInput? ==> r.at == c
    ensures r.Scanned? ==> SameStream(c, r.rest) && r.rest.idx == c.idx + 1 && r.value == c.text[c.idx]
    ensures r.Scanned? && r.value == '\n' ==> r.rest.line == c.line + 1 && r.rest.col == 0
    ensures r.Scanned? && r.value != '\n' ==> r.rest.line == c.line && r.rest.col == c.col + 1
  {
    if c.idx >= |c.text| then EndOfInput(c)
    else
      var ch := c.text[c.idx];
      var it := if IsLineBreak(ch) then c.(idx := c.idx + 1, line := c.line + 1, col := 0)
                else c.(idx := c.idx + 1, col := c.col + 1);
      Scanned(ch, it)
  }

  /** `_TextIterator.peek()` with the default count of one. */
  function PeekChar(c: Cursor): (r: Option<char>)
    ensures r.None? <==> c.idx == |c.text|
    ensures r.Some? ==> r.value == c.text[c.idx]
  {
    if c.idx < |c.text| then Some(c.text[c.idx]) else None
  }

  /** `_TextIterator.peek(n)` with `n > 1`: the slice of the next `n` characters, shorter near the end. */
  function PeekN(c: Cursor, n: nat): (w: string)
    ensures |w| <= n
    ensures |w| == if c.idx + n <= |c.text| then n else |c.text| - c.idx
    ensures w == c.text[c.idx..c.idx + |w|]
  {
    if c.idx + n <= |c.text| then c.text[c.idx..c.idx + n] else c.text[c.idx..]
  }

  /** Consume `n` characters that are known to be present. */
  function Skip(c: Cursor, n: nat): (r: Cursor)
    requires c.idx + n <= |c.text|
    ensures SameStream(c, r) && r.idx == c.idx + n
    decreases n
  {
    if n == 0 then c else Skip(Next(c).rest, n - 1)
  }

  /** `if stream.peek() in chars: stream.next()`: consume the next character if it is one of `chars`. */
  function SkipIf(c: Cursor, chars: string): (r: Cursor)
    ensures SameStream(c, r)
    ensures c.idx < |c.text| && c.text[c.idx] in chars ==> r.idx == c.idx + 1
    ensures !(c.idx < |c.text| && c.text[c.idx] in chars) ==> r == c
  {
    match PeekChar(c)
    case Some(ch) => if ch in chars then Next(c).rest else c
    case None => c
  }

  lemma NextPeekAgree(c: Cursor)
    ensures PeekChar(c).None? <==> Next(c).EndOfInput?
    ensures PeekChar(c).Some? ==> Next(c).value == PeekChar(c).value
  {
  }

  /** Only a line feed is a line break: the two-character '\r\n' alternative can never equal one character. */
  lemma LineBreakIsLineFeed(ch: char)
    ensures IsLineBreak(ch) <==> ch == '\n'
  {
  }

  lemma {:induction false} PosAfterConcat(p: Position, a: string, b: string)
    ensures PosAfter(p, a + b) == PosAfter(PosAfter(p, a), b)
    decreases |b|
  {
    if b == [] {
      assert a + b == a;
    } else {
      assert (a + b)[..|a + b| - 1] == a + b[..|b| - 1];
      PosAfterConcat(p, a, b[..|b| - 1]);
    }
  }

  lemma {:induction false} PosAfterMonotone(p: Position, s: string)
    ensures PosLe(p, PosAfter(p, s))
    ensures s != [] ==> PosLt(p, PosAfter(p, s))
    decreases |s|
  {
    if s != [] {
      PosAfterMonotone(p, s[..|s| - 1]);
    }
  }

  /** The tracked position of a cursor is the position its consumed prefix reaches. */
  lemma Consumed(c: Cursor)
    ensures c.Pos() == PosAfter(c.offset, c.text[..c.idx])
  {
    PosAtPrefix(c.text, c.offset, c.idx);
  }

  /** Positions never move backwards along one stream, and strictly advance with every consumed character. */
  lemma PosOrder(a: Cursor, b: Cursor)
    requires SameStream(a, b) && a.idx <= b.idx
    ensures PosLe(a.Pos(), b.Pos())
    ensures a.idx < b.idx ==> PosLt(a.Pos(), b.Pos())
  {
    PosAcross(a, b);
    PosAfterMonotone(a.Pos(), a.text[a.idx..b.idx]);
  }

  /** Walking a cursor from `a` to `b` moves the position exactly as reading the consumed slice does. */
  lemma PosAcross(a: Cursor, b: Cursor)
    requires SameStream(a, b) && a.idx <= b.idx
    ensures b.Pos() == PosAfter(a.Pos(), a.text[a.idx..b.idx])
  {
    var t := a.text;
    Consumed(a);
    Consumed(b);
    assert t[..b.idx] == t[..a.idx] + t[a.idx..b.idx];
    PosAfterConcat(a.offset, t[..a.idx], t[a.idx..b.idx]);
  }

  /** The cursor of the stream over `text` from `offset` after `i` characters. */
  function CursorAt(text: string, offset: Position, i: nat): (c: Cursor)
    requires i <= |text|
    ensures c.text == text && c.offset == offset && c.idx == i
    ensures c.Pos() == PosAfter(offset, text[..i])
  {
    PosAtPrefix(text, offset, i);
    var p := PosAt(text, offset, i);
    TextIterator(text, offset, i, p.line, p.col)
  }

  /** A cursor is determined by its stream and index: the tracked position follows from them. */
  lemma CursorDetermined(c: Cursor)
    ensures c == CursorAt(c.text, c.offset, c.idx)
  {
  }
}
