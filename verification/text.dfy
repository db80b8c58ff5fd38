/**
  String helpers of the lexer: decimal digits and their value (`int()` on a
  digit run), backslash unescaping (`_unescape`), and the line splitting and
  joining used to strip indentation from Python code.
 */
module TextUtil {

  /** A decimal digit (`string.digits`, and ASCII `\d`). */
  predicate IsDigit(ch: char) {
    '0' <= ch <= '9'
  }

  predicate AllDigits(s: string) {
    forall i :: 0 <= i < |s| ==> IsDigit(s[i])
  }

  function DigitValue(ch: char): nat
    requires IsDigit(ch)
  {
    (ch as int) - ('0' as int)
  }

  /** The value of a run of decimal digits, as Python's `int()` reads it (leading zeros allowed). */
  function DecimalValue(s: string): nat
    requires AllDigits(s)
    decreases |s|
  {
    if s == [] then 0 else 10 * DecimalValue(s[..|s| - 1]) + DigitValue(s[|s| - 1])
  }

  /** The decimal spelling of `n`, without leading zeros. */
  function DecimalString(n: nat): (s: string)
    ensures |s| >= 1 && AllDigits(s)
    ensures DecimalValue(s) == n
    decreases n
  {
    var d := [(('0' as int) + n % 10) as char];
    if n < 10 then d else DecimalString(n / 10) + d
  }

  /** The number of consecutive digits of `s` starting at index `i`. */
  function DigitRun(s: string, i: nat): (k: nat)
    requires i <= |s|
    ensures i + k <= |s|
    ensures AllDigits(s[i..i + k])
    ensures i + k == |s| || !IsDigit(s[i + k])
    decreases |s| - i
  {
    if i < |s| && IsDigit(s[i]) then
      var k := DigitRun(s, i + 1);
      assert s[i..i + 1 + k] == [s[i]] + s[i + 1..i + 1 + k];
      1 + k
    else 0
  }

  /** `t[i..j]` is a maximal run of digits (nothing follows it or a non-digit does), and `n` is its value. */
  predicate DigitsRead(t: string, i: nat, j: nat, n: nat) {
    i < j <= |t| && AllDigits(t[i..j]) && n == DecimalValue(t[i..j]) && (j == |t| || !IsDigit(t[j]))
  }

  /** A maximal run of digits is the digit run. */
  lemma DigitsReadRun(t: string, i: nat, j: nat, n: nat)
    requires DigitsRead(t, i, j, n)
    ensures DigitRun(t, i) == j - i
  {
  }

  /** A maximal run of digits and its value are determined by where it starts. */
  lemma DigitsReadUnique(t: string, i: nat, j1: nat, n1: nat, j2: nat, n2: nat)
    requires DigitsRead(t, i, j1, n1) && DigitsRead(t, i, j2, n2)
    ensures j1 == j2 && n1 == n2
  {
    DigitsReadRun(t, i, j1, n1);
    DigitsReadRun(t, i, j2, n2);
  }

  /**
    `_unescape`: every backslash that has a following character is dropped
    and that character is kept verbatim; a trailing lone backslash stays.
   */
  function Unescape(s: string): (r: string)
    ensures |r| <= |s|
    ensures |r| == 0 <==> |s| == 0
    ensures |s| > 0 ==> r[|r| - 1] == s[|s| - 1]
    ensures (forall i :: 0 <= i < |s| ==> s[i] != '\\') ==> r == s
    decreases |s|
  {
    if |s| == 0 then []
    else if |s| >= 2 && s[0] == '\\' then [s[1]] + Unescape(s[2..])
    else [s[0]] + Unescape(s[1..])
  }

  /** Escape every character of `s` that is in `specials`, and every backslash, with a backslash. */
  function Quote(s: string, specials: string): (q: string)
    ensures |q| >= |s|
    decreases |s|
  {
    if s == [] then []
    else QuoteUnit(s[0], specials) + Quote(s[1..], specials)
  }

  /** Unescaping undoes quoting, whichever characters were quoted. */
  lemma UnescapeQuote(s: string, specials: string)
    ensures Unescape(Quote(s, specials)) == s
  {
    UnescapeQuoteThen(s, specials, []);
    assert Quote(s, specials) + [] == Quote(s, specials);
  }

  /**
    Unescaping reads a quoted prefix back and then carries on with the rest,
    whatever follows it. Every text splits into such units, `Quote([x], [x])`
    for an escape and `Quote([y], [])` for any other character (with a lone
    final backslash kept by the last-character clause of `Unescape`), so this
    fixes `Unescape` on every input.
   */
  lemma {:induction false} UnescapeQuoteThen(p: string, specials: string, s: string)
    ensures Unescape(Quote(p, specials) + s) == p + Unescape(s)
    decreases |p|
  {
    if p == [] {
      assert Quote(p, specials) + s == s;
    } else {
      var q1 := Quote(p[1..], specials) + s;
      QuoteFirst(p, specials, s);
      UnescapeQuoteThen(p[1..], specials, s);
      UnescapeUnit(p[0], specials, q1);
      ConsAppend(p, Unescape(s));
    }
  }

  /** What `Quote` writes for one character. */
  function QuoteUnit(x: char, specials: string): string {
    if x in specials || x == '\\' then ['\\', x] else [x]
  }

  /** Unescaping reads one quoted character back and carries on with the rest. */
  lemma UnescapeUnit(x: char, specials: string, rest: string)
    ensures Unescape(QuoteUnit(x, specials) + rest) == [x] + Unescape(rest)
  {
    var q := QuoteUnit(x, specials) + rest;
    if x in specials || x == '\\' {
      assert q[2..] == rest;
    } else {
      assert q[1..] == rest;
    }
  }

  /** Quoting a non-empty text writes its first character's unit first. */
  lemma QuoteFirst(p: string, specials: string, s: string)
    requires p != []
    ensures Quote(p, specials) + s == QuoteUnit(p[0], specials) + (Quote(p[1..], specials) + s)
  {
  }

  /** A non-empty text is its first character followed by the rest. */
  lemma ConsAppend(p: string, t: string)
    requires p != []
    ensures [p[0]] + (p[1..] + t) == p + t
  {
    assert [p[0]] + p[1..] == p;
  }

  /** Index of the first line feed in `s`. */
  function FirstNewline(s: string): (k: nat)
    requires '\n' in s
    ensures k < |s| && s[k] == '\n'
    ensures '\n' !in s[..k]
    decreases |s|
  {
    if s[0] == '\n' then 0 else 1 + FirstNewline(s[1..])
  }

  /** `'\n'.join(ls)`. */
  function JoinLines(ls: seq<string>): string
    decreases |ls|
  {
    if |ls| == 0 then []
    else if |ls| == 1 then ls[0]
    else ls[0] + "\n" + JoinLines(ls[1..])
  }

  /** `s.split('\n')`: the pieces between line feeds. */
  function SplitNewlines(s: string): (ls: seq<string>)
    ensures |ls| >= 1
    ensures forall i :: 0 <= i < |ls| ==> '\n' !in ls[i]
    ensures '\n' in s <==> |ls| >= 2
    ensures JoinLines(ls) == s
    decreases |s|
  {
    if '\n' !in s then [s]
    else
      var k := FirstNewline(s);
      var tail := SplitNewlines(s[k + 1..]);
      assert s == s[..k] + "\n" + s[k + 1..];
      [s[..k]] + tail
  }

  /** Joining newline-free lines and splitting again gives the lines back. */
  lemma {:induction false} SplitJoin(ls: seq<string>)
    requires |ls| >= 1
    requires forall i :: 0 <= i < |ls| ==> '\n' !in ls[i]
    ensures SplitNewlines(JoinLines(ls)) == ls
    decreases |ls|
  {
    if |ls| > 1 {
      var s := JoinLines(ls);
      var k := |ls[0]|;
      assert s == ls[0] + "\n" + JoinLines(ls[1..]);
      assert s[k] == '\n';
      assert s[..k] == ls[0];
      assert FirstNewline(s) == k by {
        FirstNewlineUnique(s, k);
      }
      assert s[k + 1..] == JoinLines(ls[1..]);
      SplitJoin(ls[1..]);
      assert ls == [ls[0]] + ls[1..];
    }
  }

  lemma FirstNewlineUnique(s: string, k: nat)
    requires k < |s| && s[k] == '\n' && '\n' !in s[..k]
    ensures FirstNewline(s) == k
  {
  }

  /**
    `s.splitlines()` for text whose only line terminator is the line feed:
    no lines for empty text, and no empty last line after a final line feed.
   */
  function SplitLines(s: string): (ls: seq<string>)
    ensures |ls| == 0 <==> s == []
    ensures forall i :: 0 <= i < |ls| ==> '\n' !in ls[i]
    ensures s != [] ==> JoinLines(ls) + (if s[|s| - 1] == '\n' then "\n" else "") == s
  {
    if s == [] then []
    else
      var pieces := SplitNewlines(s);
      if s[|s| - 1] == '\n' then
        var pre := pieces[..|pieces| - 1];
        var last := pieces[|pieces| - 1];
        assert pieces == pre + [last];
        JoinLinesSnoc(pre, last);
        assert last == [];
        pre
      else pieces
  }

  /** Joining one more line puts a line feed and that line at the end. */
  lemma {:induction false} JoinLinesSnoc(ls: seq<string>, l: string)
    requires |ls| >= 1
    ensures JoinLines(ls + [l]) == JoinLines(ls) + "\n" + l
    decreases |ls|
  {
    if |ls| > 1 {
      assert (ls + [l])[1..] == ls[1..] + [l];
      JoinLinesSnoc(ls[1..], l);
    }
  }

  /**
    Line-feed-free lines joined by line feeds, with a final line feed or
    else a non-empty last line, split back into exactly those lines.
   */
  lemma SplitLinesOf(ls: seq<string>, nl: bool)
    requires |ls| >= 1 && forall i :: 0 <= i < |ls| ==> '\n' !in ls[i]
    requires nl || ls[|ls| - 1] != []
    ensures SplitLines(JoinLines(ls) + (if nl then "\n" else "")) == ls
  {
    if nl {
      SplitLinesTerminated(ls);
    } else {
      JoinLinesLast(ls);
      assert JoinLines(ls) + "" == JoinLines(ls);
      SplitLinesUnterminated(JoinLines(ls));
      SplitJoin(ls);
    }
  }

  /** Lines joined and ended by a line feed split back into those lines. */
  lemma SplitLinesTerminated(ls: seq<string>)
    requires |ls| >= 1 && forall i :: 0 <= i < |ls| ==> '\n' !in ls[i]
    ensures SplitLines(JoinLines(ls) + "\n") == ls
  {
    var s := JoinLines(ls) + "\n";
    JoinLinesSnoc(ls, "");
    assert JoinLines(ls + [""]) == s;
    SplitJoin(ls + [""]);
    assert (ls + [""])[..|ls|] == ls;
  }

  /** Every non-empty text is its lines joined, with a final line feed or else a non-empty last line. */
  lemma SplitLinesCanonical(s: string)
    requires s != []
    ensures var ls := SplitLines(s);
      && |ls| >= 1
      && s == JoinLines(ls) + (if s[|s| - 1] == '\n' then "\n" else "")
      && (s[|s| - 1] == '\n' || ls[|ls| - 1] != [])
  {
    var ls := SplitLines(s);
    if s[|s| - 1] != '\n' && |ls| > 1 {
      var init, last := ls[..|ls| - 1], ls[|ls| - 1];
      assert init + [last] == ls;
      JoinLinesSnoc(init, last);
      assert s == JoinLines(init) + "\n" + last;
    }
  }

  /** Text that does not end in a line feed has no empty last line to drop. */
  lemma SplitLinesUnterminated(s: string)
    requires s != [] && s[|s| - 1] != '\n'
    ensures SplitLines(s) == SplitNewlines(s)
  {
  }

  /** `l[k:]` with Python's clamping: a line shorter than `k` becomes empty. */
  function DropPrefix(l: string, k: nat): (r: string)
    ensures |l| <= k ==> r == []
    ensures |l| > k ==> r == l[k..] && |r| == |l| - k
  {
    if |l| <= k then [] else l[k..]
  }

  /** `[l[k:] for l in ls]`. */
  function DropEach(ls: seq<string>, k: nat): (r: seq<string>)
    ensures |r| == |ls|
    ensures forall i :: 0 <= i < |ls| ==> r[i] == DropPrefix(ls[i], k)
    decreases |ls|
  {
    if ls == [] then [] else [DropPrefix(ls[0], k)] + DropEach(ls[1..], k)
  }

  /** Every line of `ls` with `prefix` put in front. */
  function IndentEach(ls: seq<string>, prefix: string): (r: seq<string>)
    ensures |r| == |ls|
    ensures forall i :: 0 <= i < |ls| ==> r[i] == prefix + ls[i]
    decreases |ls|
  {
    if ls == [] then [] else [prefix + ls[0]] + IndentEach(ls[1..], prefix)
  }

  /** The last character of a join is that of its last line when that line is not empty. */
  lemma {:induction false} JoinLinesLast(ls: seq<string>)
    requires |ls| >= 1 && |ls[|ls| - 1]| >= 1
    ensures |JoinLines(ls)| >= 1
    ensures JoinLines(ls)[|JoinLines(ls)| - 1] == ls[|ls| - 1][|ls[|ls| - 1]| - 1]
    decreases |ls|
  {
    if |ls| > 1 {
      JoinLinesLast(ls[1..]);
    }
  }
}
