/**
  The scanners shared by the token parsers of `_lexer.py`: the digit run
  (`_parse_number`), the balanced-brace scan (`_parse_till_closing_brace`),
  the scan up to an unescaped stop character (`_parse_till_unescaped_char`),
  and the escape lookahead they rely on (`EscapeCharToken.starts_here`).

  Each scanner comes with a reference definition over plain strings
  (`BraceDepth`, `Free`) that says which text it accepts, and a lemma that
  the scanner finds exactly that text.
 */
module Scanners {
  import opened Results
  import opened TextCursor
  import opened TextUtil

  /** `EscapeCharToken.starts_here(stream, chars)`: a backslash followed by one of `chars`. */
  predicate EscapeStartsHere(c: Cursor, chars: string) {
    var cs := PeekN(c, 2);
    |cs| == 2 && cs[0] == '\\' && cs[1] in chars
  }

  /** The escape lookahead in terms of the text itself. */
  lemma EscapeAt(c: Cursor, chars: string)
    ensures EscapeStartsHere(c, chars) <==>
      c.idx + 2 <= |c.text| && c.text[c.idx] == '\\' && c.text[c.idx + 1] in chars
  {
  }

  // ---------------------------------------------------------------------------
  // Digit runs

  /** Consume the digits at the cursor, for as long as the next character is a digit. */
  function TakeDigits(c: Cursor): (r: (string, Cursor))
    ensures SameStream(c, r.1) && r.1.idx == c.idx + |r.0|
    ensures r.0 == c.text[c.idx..r.1.idx]
    ensures AllDigits(r.0)
    ensures r.1.idx == |c.text| || !IsDigit(c.text[r.1.idx])
    decreases |c.text| - c.idx
  {
    if c.idx < |c.text| && IsDigit(c.text[c.idx]) then
      var s := Next(c);
      var (ds, c2) := TakeDigits(s.rest);
      assert c.text[c.idx..c2.idx] == [s.value] + c.text[s.rest.idx..c2.idx];
      ([s.value] + ds, c2)
    else
      ([], c)
  }

  /**
    `_parse_number`: the caller guarantees that a digit comes next. The whole
    maximal digit run is consumed and its decimal value returned.
   */
  function ParseNumber(c: Cursor): (r: (nat, Cursor))
    requires c.idx < |c.text| && IsDigit(c.text[c.idx])
    ensures SameStream(c, r.1) && DigitsRead(c.text, c.idx, r.1.idx, r.0)
  {
    var (ds, c1) := TakeDigits(c);
    (DecimalValue(ds), c1)
  }

  // ---------------------------------------------------------------------------
  // Balanced braces

  /**
    The nesting depth after reading `s` from depth `d`, or `None` once an
    unescaped closing brace has brought the depth to zero. `\{` and `\}` are
    read as one unit that leaves the depth alone.
   */
  function BraceDepth(s: string, d: nat): Option<nat>
    decreases |s|
  {
    if s == [] then Some(d)
    else if |s| >= 2 && s[0] == '\\' && s[1] in "{}" then BraceDepth(s[2..], d)
    else if s[0] == '{' then BraceDepth(s[1..], d + 1)
    else if s[0] == '}' then (if d <= 1 then None else BraceDepth(s[1..], d - 1))
    else BraceDepth(s[1..], d)
  }

  /** `v` is the text a brace scan starting at depth `d` returns: it never closes, and a `}` after it does. */
  predicate BraceBody(v: string, d: nat) {
    BraceDepth(v, d) == Some(1) && BraceDepth(v + "}", d) == None
  }

  lemma BraceDepthEscaped(e: char, y: string, d: nat)
    requires e in "{}"
    ensures BraceDepth(['\\', e] + y, d) == BraceDepth(y, d)
  {
    assert (['\\', e] + y)[2..] == y;
  }

  lemma BraceDepthPlain(ch: char, y: string, d: nat)
    requires !(ch == '\\' && |y| >= 1 && y[0] in "{}")
    ensures BraceDepth([ch] + y, d) ==
      if ch == '{' then BraceDepth(y, d + 1)
      else if ch == '}' then (if d <= 1 then None else BraceDepth(y, d - 1))
      else BraceDepth(y, d)
  {
    assert ([ch] + y)[1..] == y;
  }

  /** The brace scan from `c` at depth `depth` returned `v` and stopped at `r`: `v` and the closing brace are exactly what was consumed. */
  predicate BraceFound(c: Cursor, depth: nat, v: string, r: Cursor) {
    && SameStream(c, r) && r.idx == c.idx + |v| + 1
    && c.text[c.idx..r.idx] == v + "}"
    && BraceBody(v, depth)
  }

  /** The brace scan from `c` at depth `depth` ran out of input at `at`: the rest of the text never closes the brace. */
  predicate BraceUnclosed(c: Cursor, depth: nat, at: Cursor) {
    && SameStream(c, at) && at.idx == |c.text|
    && BraceDepth(c.text[c.idx..], depth).Some?
  }

  lemma BraceEscapeStep(c: Cursor, depth: nat, v: string, r: Cursor)
    requires EscapeStartsHere(c, "{}")
    requires BraceFound(Next(Next(c).rest).rest, depth, v, r)
    ensures BraceFound(c, depth, [Next(c).value, Next(Next(c).rest).value] + v, r)
  {
    EscapeAt(c, "{}");
    var e := Next(Next(c).rest).value;
    var c2 := Next(Next(c).rest).rest;
    BraceDepthEscaped(e, v, depth);
    BraceDepthEscaped(e, v + "}", depth);
    assert ['\\', e] + v + "}" == ['\\', e] + (v + "}");
    assert c.text[c.idx..r.idx] == ['\\', e] + c.text[c2.idx..r.idx];
  }

  lemma BraceEscapeStepEnd(c: Cursor, depth: nat, at: Cursor)
    requires EscapeStartsHere(c, "{}")
    requires BraceUnclosed(Next(Next(c).rest).rest, depth, at)
    ensures BraceUnclosed(c, depth, at)
  {
    EscapeAt(c, "{}");
    var e := Next(Next(c).rest).value;
    var c2 := Next(Next(c).rest).rest;
    assert c.text[c.idx..] == ['\\', e] + c.text[c2.idx..];
    BraceDepthEscaped(e, c.text[c2.idx..], depth);
  }

  /** The depth after reading one plain character `ch` at depth `depth`. */
  function StepDepth(ch: char, depth: nat): int {
    if ch == '{' then depth + 1 else if ch == '}' then depth - 1 else depth
  }

  lemma BracePlainStep(c: Cursor, depth: nat, v: string, r: Cursor)
    requires depth >= 1 && !EscapeStartsHere(c, "{}") && c.idx < |c.text|
    requires StepDepth(c.text[c.idx], depth) >= 1
    requires BraceFound(Next(c).rest, StepDepth(c.text[c.idx], depth), v, r)
    ensures BraceFound(c, depth, [c.text[c.idx]] + v, r)
  {
    EscapeAt(c, "{}");
    var ch := c.text[c.idx];
    var c1 := Next(c).rest;
    assert c.text[c.idx..r.idx] == [ch] + c.text[c1.idx..r.idx];
    assert v + "}" == c.text[c1.idx..r.idx];
    BraceDepthPlain(ch, v, depth);
    BraceDepthPlain(ch, v + "}", depth);
    assert [ch] + v + "}" == [ch] + (v + "}");
  }

  lemma BracePlainStepEnd(c: Cursor, depth: nat, at: Cursor)
    requires depth >= 1 && !EscapeStartsHere(c, "{}") && c.idx < |c.text|
    requires StepDepth(c.text[c.idx], depth) >= 1
    requires BraceUnclosed(Next(c).rest, StepDepth(c.text[c.idx], depth), at)
    ensures BraceUnclosed(c, depth, at)
  {
    EscapeAt(c, "{}");
    var ch := c.text[c.idx];
    var c1 := Next(c).rest;
    assert c.text[c.idx..] == [ch] + c.text[c1.idx..];
    BraceDepthPlain(ch, c.text[c1.idx..], depth);
  }

  lemma BraceCloseStep(c: Cursor, depth: nat)
    requires depth >= 1 && !EscapeStartsHere(c, "{}") && c.idx < |c.text|
    requires StepDepth(c.text[c.idx], depth) == 0
    ensures BraceFound(c, depth, [], Next(c).rest)
  {
    assert BraceDepth("}", depth) == None;
  }

  lemma BraceEmptyUnclosed(c: Cursor, depth: nat)
    requires c.idx == |c.text|
    ensures BraceUnclosed(c, depth, c)
  {
  }

  /** The loop of `_parse_till_closing_brace`, entered at nesting depth `depth`. */
  function BraceLoop(c: Cursor, depth: nat): (r: Scan<string>)
    requires depth >= 1
    ensures r.Scanned? ==> BraceFound(c, depth, r.value, r.rest)
    ensures r.EndOfInput? ==> BraceUnclosed(c, depth, r.at)
    decreases |c.text| - c.idx
  {
    if EscapeStartsHere(c, "{}") then
      var a := Next(c);
      var b := Next(a.rest);
      match BraceLoop(b.rest, depth)
      case Scanned(v, r) =>
        BraceEscapeStep(c, depth, v, r);
        Scanned([a.value, b.value] + v, r)
      case EndOfInput(at) =>
        BraceEscapeStepEnd(c, depth, at);
        EndOfInput(at)
    else
      match Next(c)
      case EndOfInput(at) =>
        BraceEmptyUnclosed(c, depth);
        EndOfInput(at)
      case Scanned(ch, c1) =>
        var d := StepDepth(ch, depth);
        if d == 0 then
          BraceCloseStep(c, depth);
          Scanned([], c1)
        else
          match BraceLoop(c1, d)
          case Scanned(v, r) =>
            BracePlainStep(c, depth, v, r);
            Scanned([ch] + v, r)
          case EndOfInput(at) =>
            BracePlainStepEnd(c, depth, at);
            EndOfInput(at)
  }

  /**
    `_parse_till_closing_brace`: everything up to the unescaped `}` that
    closes the brace already opened, consuming that brace but not returning it.
   */
  function TillClosingBrace(c: Cursor): (r: Scan<string>)
    ensures r.Scanned? ==> BraceFound(c, 1, r.value, r.rest)
    ensures r.EndOfInput? ==> BraceUnclosed(c, 1, r.at)
  {
    BraceLoop(c, 1)
  }

  /** The text at `c` starts with `v` followed by a closing brace. */
  predicate BodyAhead(c: Cursor, v: string) {
    c.idx + |v| + 1 <= |c.text| && c.text[c.idx..c.idx + |v| + 1] == v + "}"
  }

  lemma BackslashBraceIsEscape(d: nat)
    ensures BraceDepth("\\}", d) == Some(d)
  {
    assert "\\}"[2..] == [];
  }

  lemma FindsEscapeStep(c: Cursor, depth: nat, v: string)
    requires depth >= 1 && BodyAhead(c, v) && BraceBody(v, depth)
    requires EscapeStartsHere(c, "{}")
    ensures |v| >= 2 && v[..2] == [Next(c).value, Next(Next(c).rest).value]
    ensures BodyAhead(Next(Next(c).rest).rest, v[2..]) && BraceBody(v[2..], depth)
  {
    EscapeAt(c, "{}");
    var w := v + "}";
    assert w[0] == c.text[c.idx] && w[1] == c.text[c.idx + 1];
    BackslashBraceIsEscape(depth);
    assert v == ['\\', v[1]] + v[2..];
    BraceDepthEscaped(v[1], v[2..], depth);
    BraceDepthEscaped(v[1], v[2..] + "}", depth);
    assert w == ['\\', v[1]] + (v[2..] + "}");
    assert c.text[c.idx + 2..c.idx + |v| + 1] == w[2..];
  }

  lemma FindsPlainStep(c: Cursor, depth: nat, v: string)
    requires depth >= 1 && BodyAhead(c, v) && BraceBody(v, depth)
    requires !EscapeStartsHere(c, "{}")
    ensures v == [] ==> StepDepth(c.text[c.idx], depth) == 0
    ensures v != [] ==> v[0] == c.text[c.idx] && StepDepth(v[0], depth) >= 1
    ensures v != [] ==> BodyAhead(Next(c).rest, v[1..]) && BraceBody(v[1..], StepDepth(v[0], depth))
  {
    EscapeAt(c, "{}");
    var w := v + "}";
    assert w[0] == c.text[c.idx];
    if v != [] {
      assert w[1] == c.text[c.idx + 1];
      assert v == [v[0]] + v[1..];
      BraceDepthPlain(v[0], v[1..], depth);
      BraceDepthPlain(v[0], v[1..] + "}", depth);
      assert w == [v[0]] + (v[1..] + "}");
      assert c.text[c.idx + 1..c.idx + |v| + 1] == w[1..];
    }
  }

  /** The brace scan finds every brace body: whatever `BraceBody` accepts, followed by `}`, is returned intact. */
  lemma {:induction false} BraceLoopFinds(c: Cursor, depth: nat, v: string)
    requires depth >= 1 && BodyAhead(c, v) && BraceBody(v, depth)
    ensures BraceLoop(c, depth).Scanned?
    ensures BraceLoop(c, depth).value == v
    ensures BraceLoop(c, depth).rest.idx == c.idx + |v| + 1
    decreases |v|
  {
    if EscapeStartsHere(c, "{}") {
      FindsEscapeStep(c, depth, v);
      BraceLoopFinds(Next(Next(c).rest).rest, depth, v[2..]);
      BraceEscapeThen(c, depth);
      assert v == v[..2] + v[2..];
    } else {
      FindsPlainStep(c, depth, v);
      if v != [] {
        BraceLoopFinds(Next(c).rest, StepDepth(v[0], depth), v[1..]);
        BracePlainThen(c, depth);
        assert v == [v[0]] + v[1..];
      }
    }
  }

  /** An escaped brace is kept as it stands, and the scan goes on after it at the same depth. */
  lemma BraceEscapeThen(c: Cursor, depth: nat)
    requires depth >= 1 && EscapeStartsHere(c, "{}")
    ensures var r := BraceLoop(Next(Next(c).rest).rest, depth);
      r.Scanned? ==> BraceLoop(c, depth) == Scanned([Next(c).value, Next(Next(c).rest).value] + r.value, r.rest)
  {
  }

  /** Any other character that leaves the depth positive is kept, and the scan goes on after it at the new depth. */
  lemma BracePlainThen(c: Cursor, depth: nat)
    requires depth >= 1 && !EscapeStartsHere(c, "{}") && c.idx < |c.text|
    requires StepDepth(c.text[c.idx], depth) >= 1
    ensures var r := BraceLoop(Next(c).rest, StepDepth(c.text[c.idx], depth));
      r.Scanned? ==> BraceLoop(c, depth) == Scanned([c.text[c.idx]] + r.value, r.rest)
  {
  }

  lemma BraceScanFinds(c: Cursor, v: string)
    requires BodyAhead(c, v) && BraceBody(v, 1)
    ensures TillClosingBrace(c).Scanned?
    ensures TillClosingBrace(c).value == v
    ensures TillClosingBrace(c).rest.idx == c.idx + |v| + 1
  {
    BraceLoopFinds(c, 1, v);
  }

  // ---------------------------------------------------------------------------
  // Scanning up to an unescaped stop character

  /**
    `s` holds no unescaped stop character: reading it left to right, a
    backslash followed by a stop character is one unit, and no other unit is
    a stop character.
   */
  predicate Free(s: string, stops: string)
    decreases |s|
  {
    if s == [] then true
    else if |s| >= 2 && s[0] == '\\' && s[1] in stops then Free(s[2..], stops)
    else s[0] !in stops && Free(s[1..], stops)
  }

  predicate EndsWithBackslash(s: string) {
    |s| > 0 && s[|s| - 1] == '\\'
  }

  /** `s` is a run of escaped stop characters. */
  predicate EscapePairs(s: string, stops: string)
    decreases |s|
  {
    s == [] || (|s| >= 2 && s[0] == '\\' && s[1] in stops && EscapePairs(s[2..], stops))
  }

  /** An escaped stop character that is in `chars[k..]` sits at the cursor. */
  predicate EscapedStopAt(c: Cursor, chars: string, k: nat)
    requires k <= |chars|
  {
    exists j :: k <= j < |chars| && EscapeStartsHere(c, [chars[j]])
  }

  /** An escape pass from `c` consumed exactly `esc`, a run of escaped stop characters, and stopped at `r`. */
  predicate PassConsumed(c: Cursor, chars: string, esc: string, r: Cursor) {
    && SameStream(c, r) && r.idx == c.idx + |esc|
    && esc == c.text[c.idx..r.idx]
    && EscapePairs(esc, chars)
  }

  lemma PassStep(c: Cursor, chars: string, k: nat, more: string, r: Cursor)
    requires k < |chars| && EscapeStartsHere(c, [chars[k]])
    requires PassConsumed(Next(Next(c).rest).rest, chars, more, r)
    ensures PassConsumed(c, chars, [Next(c).value, Next(Next(c).rest).value] + more, r)
  {
    EscapeAt(c, [chars[k]]);
    var c2 := Next(Next(c).rest).rest;
    var e := [Next(c).value, Next(Next(c).rest).value];
    assert c.text[c.idx..r.idx] == e + c.text[c2.idx..r.idx];
    assert (e + more)[2..] == more;
  }

  /**
    One pass of the `for char in chars` loop of `_parse_till_unescaped_char`
    from the `k`-th stop character on: each stop character in turn consumes
    an escaped copy of itself if one sits at the (moving) cursor.
   */
  function EscapePass(c: Cursor, chars: string, k: nat): (r: (string, Cursor))
    requires k <= |chars|
    ensures PassConsumed(c, chars, r.0, r.1)
    ensures r.0 == [] <==> !EscapedStopAt(c, chars, k)
    decreases |chars| - k
  {
    if k == |chars| then ([], c)
    else if EscapeStartsHere(c, [chars[k]]) then
      var a := Next(c);
      var b := Next(a.rest);
      var (more, c2) := EscapePass(b.rest, chars, k + 1);
      PassStep(c, chars, k, more, c2);
      ([a.value, b.value] + more, c2)
    else
      var r := EscapePass(c, chars, k + 1);
      assert EscapedStopAt(c, chars, k) ==> EscapedStopAt(c, chars, k + 1);
      r
  }

  lemma {:induction false} FreeAfterPairs(esc: string, v: string, stops: string)
    requires EscapePairs(esc, stops) && Free(v, stops)
    ensures Free(esc + v, stops)
    ensures esc != [] ==> esc[|esc| - 1] in stops
    decreases |esc|
  {
    if esc != [] {
      var s := esc + v;
      assert s[0] == '\\' && s[1] == esc[1];
      assert s[2..] == esc[2..] + v;
      FreeAfterPairs(esc[2..], v, stops);
    } else {
      assert esc + v == v;
    }
  }

  /** The scan from `c` stopped at `r` on the unescaped stop character `t`, after the text `v`. */
  predicate StopFound(c: Cursor, chars: string, v: string, t: char, r: Cursor) {
    && SameStream(c, r) && r.idx == c.idx + |v| + 1
    && t in chars && c.text[c.idx..r.idx] == v + [t]
    && Free(v, chars) && ('\\' !in chars ==> !EndsWithBackslash(v))
  }

  /** The scan from `c` ran out of input at `at`: the rest of the text holds no unescaped stop character. */
  predicate StopMissing(c: Cursor, chars: string, at: Cursor) {
    SameStream(c, at) && at.idx == |c.text| && Free(c.text[c.idx..], chars)
  }

  lemma ScanEscapeStep(c: Cursor, chars: string, esc: string, c1: Cursor, v: string, t: char, r: Cursor)
    requires PassConsumed(c, chars, esc, c1) && esc != []
    requires StopFound(c1, chars, v, t, r)
    ensures StopFound(c, chars, esc + v, t, r)
  {
    FreeAfterPairs(esc, v, chars);
    assert c.text[c.idx..r.idx] == esc + c.text[c1.idx..r.idx];
    if v == [] {
      assert esc + v == esc;
    } else {
      assert (esc + v)[|esc + v| - 1] == v[|v| - 1];
    }
  }

  lemma ScanEscapeStepEnd(c: Cursor, chars: string, esc: string, c1: Cursor, at: Cursor)
    requires PassConsumed(c, chars, esc, c1)
    requires StopMissing(c1, chars, at)
    ensures StopMissing(c, chars, at)
  {
    FreeAfterPairs(esc, c.text[c1.idx..], chars);
    assert c.text[c.idx..] == esc + c.text[c1.idx..];
  }

  lemma ScanPlainStep(c: Cursor, chars: string, v: string, t: char, r: Cursor)
    requires c.idx < |c.text| && c.text[c.idx] !in chars
    requires !EscapedStopAt(c, chars, 0)
    requires StopFound(Next(c).rest, chars, v, t, r)
    ensures StopFound(c, chars, [c.text[c.idx]] + v, t, r)
  {
    var ch := c.text[c.idx];
    var c1 := Next(c).rest;
    var s := [ch] + v;
    assert c.text[c.idx..r.idx] == [ch] + c.text[c1.idx..r.idx];
    assert s[1..] == v;
    if v != [] {
      assert s[|s| - 1] == v[|v| - 1];
    }
  }

  lemma ScanPlainStepEnd(c: Cursor, chars: string, at: Cursor)
    requires c.idx < |c.text| && c.text[c.idx] !in chars
    requires !EscapedStopAt(c, chars, 0)
    requires StopMissing(Next(c).rest, chars, at)
    ensures StopMissing(c, chars, at)
  {
    var ch := c.text[c.idx];
    var c1 := Next(c).rest;
    var s := c.text[c.idx..];
    assert s == [ch] + c.text[c1.idx..];
  }

  /**
    `_parse_till_unescaped_char`: the text before the first unescaped stop
    character, with escaped stop characters left in their two-character form,
    and that stop character, which is consumed.
   */
  function ScanTill(c: Cursor, chars: string): (r: Scan<(string, char)>)
    ensures r.Scanned? ==> StopFound(c, chars, r.value.0, r.value.1, r.rest)
    ensures r.EndOfInput? ==> StopMissing(c, chars, r.at)
    decreases |c.text| - c.idx
  {
    var (esc, c1) := EscapePass(c, chars, 0);
    if esc != [] then
      match ScanTill(c1, chars)
      case Scanned((v, t), r) =>
        ScanEscapeStep(c, chars, esc, c1, v, t, r);
        Scanned((esc + v, t), r)
      case EndOfInput(at) =>
        ScanEscapeStepEnd(c, chars, esc, c1, at);
        EndOfInput(at)
    else
      match Next(c)
      case EndOfInput(at) => EndOfInput(at)
      case Scanned(ch, c1) =>
        if ch in chars then
          Scanned(([], ch), c1)
        else
          match ScanTill(c1, chars)
          case Scanned((v, t), r) =>
            ScanPlainStep(c, chars, v, t, r);
            Scanned(([ch] + v, t), r)
          case EndOfInput(at) =>
            ScanPlainStepEnd(c, chars, at);
            EndOfInput(at)
  }

  /** An escape pass consumes something exactly when one of the stop characters is escaped at the cursor. */
  lemma EscapedStopIff(c: Cursor, chars: string)
    ensures EscapedStopAt(c, chars, 0) <==> EscapeStartsHere(c, chars)
  {
    EscapeAt(c, chars);
    if EscapeStartsHere(c, chars) {
      var j :| 0 <= j < |chars| && chars[j] == c.text[c.idx + 1];
      EscapeAt(c, [chars[j]]);
    }
  }

  /** The text at `c` starts with `v` followed by the stop character `t`. */
  predicate StopAhead(c: Cursor, v: string, t: char) {
    c.idx + |v| + 1 <= |c.text| && c.text[c.idx..c.idx + |v| + 1] == v + [t]
  }

  /** What a scan looking for `t` after `v` needs of `v`: no unescaped stop character, and no final backslash that would escape `t`. */
  predicate StopBody(v: string, t: char, chars: string) {
    t in chars && '\\' !in chars && Free(v, chars) && !EndsWithBackslash(v)
  }

  /** An escape pass that consumed `esc` and stopped at `c1` stayed inside `v`, leaving a well-formed rest. */
  predicate PassInside(v: string, t: char, chars: string, esc: string, c1: Cursor) {
    |esc| <= |v| && v[..|esc|] == esc && StopAhead(c1, v[|esc|..], t) && StopBody(v[|esc|..], t, chars)
  }

  lemma EscapeInsideBody(c: Cursor, chars: string, k: nat, v: string, t: char)
    requires k < |chars| && EscapeStartsHere(c, [chars[k]])
    requires StopAhead(c, v, t) && StopBody(v, t, chars)
    ensures |v| >= 2 && v[..2] == [Next(c).value, Next(Next(c).rest).value]
    ensures StopAhead(Next(Next(c).rest).rest, v[2..], t) && StopBody(v[2..], t, chars)
  {
    EscapeAt(c, [chars[k]]);
    var w := v + [t];
    assert w[0] == '\\' && w[1] == chars[k];
    assert |v| >= 2 && v[0] == '\\' && v[1] == chars[k];
    var c2 := Next(Next(c).rest).rest;
    var v2 := v[2..];
    assert c.text[c2.idx..c2.idx + |v2| + 1] == w[2..] == v2 + [t];
    assert EndsWithBackslash(v2) ==> EndsWithBackslash(v);
  }

  lemma PassInsideCompose(v: string, t: char, chars: string, e: string, more: string, c1: Cursor)
    requires |e| == 2 && |v| >= 2 && v[..2] == e
    requires PassInside(v[2..], t, chars, more, c1)
    ensures PassInside(v, t, chars, e + more, c1)
  {
    var v2 := v[2..];
    assert v[..2 + |more|] == v[..2] + v2[..|more|];
    assert v[2 + |more|..] == v2[|more|..];
  }

  lemma {:induction false} PassWithin(c: Cursor, chars: string, k: nat, v: string, t: char)
    requires k <= |chars| && StopAhead(c, v, t) && StopBody(v, t, chars)
    ensures PassInside(v, t, chars, EscapePass(c, chars, k).0, EscapePass(c, chars, k).1)
    decreases |chars| - k
  {
    if k < |chars| && EscapeStartsHere(c, [chars[k]]) {
      EscapeInsideBody(c, chars, k, v, t);
      var c2 := Next(Next(c).rest).rest;
      PassWithin(c2, chars, k + 1, v[2..], t);
      PassInsideCompose(v, t, chars, [Next(c).value, Next(Next(c).rest).value],
        EscapePass(c2, chars, k + 1).0, EscapePass(c2, chars, k + 1).1);
    } else if k < |chars| {
      PassWithin(c, chars, k + 1, v, t);
    } else {
      assert v[..0] == [] && v[0..] == v;
    }
  }

  lemma PlainInsideBody(c: Cursor, chars: string, v: string, t: char)
    requires StopAhead(c, v, t) && StopBody(v, t, chars) && v != []
    requires !EscapeStartsHere(c, chars)
    ensures c.idx < |c.text| && v[0] == c.text[c.idx] && v[0] !in chars
    ensures StopAhead(Next(c).rest, v[1..], t) && StopBody(v[1..], t, chars)
  {
    EscapeAt(c, chars);
    var w := v + [t];
    assert w[0] == c.text[c.idx];
    assert |v| >= 2 ==> w[1] == c.text[c.idx + 1];
    var c2 := Next(c).rest;
    assert c.text[c2.idx..c2.idx + |v| - 1 + 1] == w[1..] == v[1..] + [t];
    assert EndsWithBackslash(v[1..]) ==> EndsWithBackslash(v);
  }

  /** The scan finds every well-formed stop: text without unescaped stop characters, followed by a stop character, is returned intact with that character. */
  lemma {:induction false} ScanTillFinds(c: Cursor, chars: string, v: string, t: char)
    requires StopAhead(c, v, t) && StopBody(v, t, chars)
    ensures ScanTill(c, chars).Scanned?
    ensures ScanTill(c, chars).value == (v, t)
    ensures ScanTill(c, chars).rest.idx == c.idx + |v| + 1
    decreases |v|, 1
  {
    if EscapePass(c, chars, 0).0 != [] {
      FindsAfterEscapes(c, chars, v, t);
    } else {
      EscapedStopIff(c, chars);
      if v != [] {
        PlainInsideBody(c, chars, v, t);
        ScanTillFinds(Next(c).rest, chars, v[1..], t);
        ScanPlainThen(c, chars);
        assert v == [v[0]] + v[1..];
      } else {
        assert (v + [t])[0] == c.text[c.idx];
      }
    }
  }

  /** `ScanTillFinds` when escaped stop characters open the text: they are kept and the scan finds the rest. */
  lemma {:induction false} FindsAfterEscapes(c: Cursor, chars: string, v: string, t: char)
    requires StopAhead(c, v, t) && StopBody(v, t, chars) && EscapePass(c, chars, 0).0 != []
    ensures ScanTill(c, chars).Scanned?
    ensures ScanTill(c, chars).value == (v, t)
    ensures ScanTill(c, chars).rest.idx == c.idx + |v| + 1
    decreases |v|, 0
  {
    var (esc, c1) := EscapePass(c, chars, 0);
    PassWithin(c, chars, 0, v, t);
    ScanTillFinds(c1, chars, v[|esc|..], t);
    ScanEscapeThen(c, chars, esc, c1);
    assert v == esc + v[|esc|..];
  }

  /** After an escape pass the scan goes on from where the pass ended and puts the escapes in front of what it finds there. */
  lemma ScanEscapeThen(c: Cursor, chars: string, esc: string, c1: Cursor)
    requires EscapePass(c, chars, 0) == (esc, c1) && esc != []
    ensures ScanTill(c1, chars).Scanned? ==>
      ScanTill(c, chars) == Scanned((esc + ScanTill(c1, chars).value.0, ScanTill(c1, chars).value.1), ScanTill(c1, chars).rest)
  {
  }

  /** A character that is neither escaped nor a stop character is kept, and the scan goes on after it. */
  lemma ScanPlainThen(c: Cursor, chars: string)
    requires EscapePass(c, chars, 0).0 == [] && c.idx < |c.text| && c.text[c.idx] !in chars
    ensures var r := ScanTill(Next(c).rest, chars);
      r.Scanned? ==> ScanTill(c, chars) == Scanned(([c.text[c.idx]] + r.value.0, r.value.1), r.rest)
  {
  }

  /** A stop character after stop-free text that does not end in a backslash is an unescaped stop, whatever follows it. */
  lemma {:induction false} StopNotFree(v: string, t: char, z: string, chars: string)
    requires '\\' !in chars && t in chars && Free(v, chars) && !EndsWithBackslash(v)
    ensures !Free(v + [t] + z, chars)
    decreases |v|
  {
    var s := v + [t] + z;
    if v == [] {
      assert s[0] == t;
    } else if |v| >= 2 && v[0] == '\\' && v[1] in chars {
      assert s[2..] == v[2..] + [t] + z;
      assert EndsWithBackslash(v[2..]) ==> EndsWithBackslash(v);
      StopNotFree(v[2..], t, z, chars);
    } else {
      assert s[1..] == v[1..] + [t] + z;
      assert EndsWithBackslash(v[1..]) ==> EndsWithBackslash(v);
      StopNotFree(v[1..], t, z, chars);
    }
  }

  /** The scan runs out of input exactly when the rest of the text holds no unescaped stop character. */
  lemma ScanTillMissing(c: Cursor, chars: string)
    requires '\\' !in chars
    ensures ScanTill(c, chars).EndOfInput? <==> Free(c.text[c.idx..], chars)
  {
    match ScanTill(c, chars)
    case Scanned((v, t), r) =>
      SliceSplit(c.text, c.idx, r.idx);
      StopNotFree(v, t, c.text[r.idx..], chars);
    case EndOfInput(_) =>
  }

  lemma SliceSplit(s: string, i: nat, j: nat)
    requires i <= j <= |s|
    ensures s[i..] == s[i..j] + s[j..]
  {
  }

  /** A stop character that is not a backslash cannot open text free of unescaped stop characters. */
  lemma FreeHead(s: string, stops: string)
    ensures s != [] && '\\' !in stops && Free(s, stops) ==> s[0] !in stops
  {
  }

  /** A stop character right at the cursor ends the scan at once, with nothing before it. */
  lemma ScanStopsAtOnce(c: Cursor, chars: string)
    ensures c.idx < |c.text| && c.text[c.idx] in chars && '\\' !in chars ==>
      ScanTill(c, chars).Scanned? && ScanTill(c, chars).value.0 == []
  {
    if c.idx < |c.text| && c.text[c.idx] in chars && '\\' !in chars {
      ScanTillMissing(c, chars);
      FreeHead(c.text[c.idx..], chars);
      assert c.text[c.idx..][0] == c.text[c.idx];
      var r := ScanTill(c, chars);
      FreeHead(r.value.0, chars);
      StopFoundHead(c, chars, r.value.0, r.value.1, r.rest);
    }
  }

  /** What a scan found starts with the character at the cursor, unless it is empty. */
  lemma StopFoundHead(c: Cursor, chars: string, v: string, t: char, r: Cursor)
    requires StopFound(c, chars, v, t, r)
    ensures c.idx < |c.text| && (v == [] ==> c.text[c.idx] == t)
    ensures v == [] || v[0] == c.text[c.idx]
  {
    assert (v + [t])[0] == c.text[c.idx..r.idx][0];
    if v != [] {
      assert v[0] == c.text[c.idx..r.idx][0];
    }
  }

  /** Once a closing brace has brought the depth to zero, nothing after it matters. */
  lemma {:induction false} BraceClosedStays(s: string, z: string, d: nat)
    requires BraceDepth(s, d).None?
    ensures BraceDepth(s + z, d).None?
    decreases |s|
  {
    var sz := s + z;
    if |s| >= 2 && s[0] == '\\' && s[1] in "{}" {
      assert sz[2..] == s[2..] + z;
      BraceClosedStays(s[2..], z, d);
    } else {
      assert sz[1..] == s[1..] + z;
      if s[0] == '{' {
        BraceClosedStays(s[1..], z, d + 1);
      } else if s[0] == '}' {
        if d > 1 {
          BraceClosedStays(s[1..], z, d - 1);
        }
      } else {
        BraceClosedStays(s[1..], z, d);
      }
    }
  }

  /** The brace scan runs out of input exactly when the rest of the text never closes the brace. */
  lemma TillClosingBraceMissing(c: Cursor)
    ensures TillClosingBrace(c).EndOfInput? <==> BraceDepth(c.text[c.idx..], 1).Some?
  {
    match TillClosingBrace(c)
    case Scanned(v, r) =>
      assert c.text[c.idx..] == (v + "}") + c.text[r.idx..];
      BraceClosedStays(v + "}", c.text[r.idx..], 1);
    case EndOfInput(_) =>
  }

  /** Quoted text holds no unescaped stop character, starts with no stop character, and ends in a backslash only if the original did. */
  lemma {:induction false} QuoteFree(x: string, stops: string)
    requires '\\' !in stops
    ensures Free(Quote(x, stops), stops)
    ensures Quote(x, stops) == [] || Quote(x, stops)[0] !in stops
    ensures EndsWithBackslash(Quote(x, stops)) <==> EndsWithBackslash(x)
    decreases |x|
  {
    if x != [] {
      QuoteFree(x[1..], stops);
      QuoteUnitFree(x[0], stops, Quote(x[1..], stops));
      EndsWithBackslashTail(x);
    }
  }

  /** Whether a non-empty text ends in a backslash is decided by its tail, or by its only character. */
  lemma EndsWithBackslashTail(x: string)
    requires x != []
    ensures EndsWithBackslash(x) <==> if x[1..] == [] then x[0] == '\\' else EndsWithBackslash(x[1..])
  {
    assert x[1..] != [] ==> x[|x| - 1] == x[1..][|x[1..]| - 1];
  }

  /** One quoted character in front of stop-free text keeps it stop-free; it ends in a backslash only through the text after it, or by being one. */
  lemma QuoteUnitFree(x: char, stops: string, q: string)
    requires '\\' !in stops && Free(q, stops) && (q == [] || q[0] !in stops)
    ensures Free(QuoteUnit(x, stops) + q, stops)
    ensures (QuoteUnit(x, stops) + q)[0] !in stops
    ensures EndsWithBackslash(QuoteUnit(x, stops) + q) <==> if q == [] then x == '\\' else EndsWithBackslash(q)
  {
    var u := QuoteUnit(x, stops) + q;
    if x in stops || x == '\\' {
      assert u[2..] == q;
      if x == '\\' {
        assert u[1..] == ['\\'] + q;
        assert u[1..][1..] == q;
      }
    } else {
      assert u[1..] == q;
    }
  }
}
