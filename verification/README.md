# UltiSnips snippet lexer, modelled in Dafny

This project models the tokenizer of UltiSnips, `plugin/UltiSnips/text_objects/_lexer.py`.
The tokenizer turns the text of a snippet definition into a sequence of tokens:

- tab stops `${1:text}`
- mirrors `$1`
- transformations `${1/search/replace/options}`
- visual placeholders `${VISUAL:text/search/replace/options}`
- escaped characters `\$`
- shell, Python and VimL code between backticks

Each token records the (line, column) span of input that produced it. The tokenizer ends with a single end-of-text token.

The model is written as pure functions:

- **`TextCursor`**: the character stream (`_TextIterator`). This is an immutable text, an index, and a tracked position. The stream invariant says that the position is the one reached by reading the consumed prefix.
- **`TextUtil`**: digits, `_unescape`, and the line splitting and joining used for Python code.
- **`Scanners`**: the three shared scanners `_parse_number`, `_parse_till_closing_brace` and `_parse_till_unescaped_char`. Each has a reference definition in the text's own terms:
  - a maximal digit run
  - `BraceDepth` for balanced braces
  - `Free` for text without an unescaped stop character
- **`Tokens`**: the `Token` datatype, each class's `starts_here` as a predicate, and each `_parse` as a function returning an `Outcome`. The three outcomes are:
  - a parsed token and the advanced cursor
  - running out of input, which is Python's `StopIteration`
  - a fatal `LexError`: the `RuntimeError` of a broken visual transformation, or the `IndexError` of empty Python code under an indent
- **`Lexer`**: `__ALLOWED_TOKENS` and the `tokenize` loop.
- **`LexerFacts`, `RoundTrips`, `VisualTrips` and `CodeTrips`**: properties of the whole tokenizer. Each token kind is written out, parsed back, and tokenized into exactly that token plus the end-of-text token. Separate lemmas cover what running out of input does in each phase.

Several behaviours of the code are easy to misread. The model follows the code as written:

- **Python code prefix.** After `` `!p`` only a space or a tab is skipped. Any other whitespace character, such as a line feed, starts the code.
- **Python indent stripping.** With a non-empty indent, a line feed is always appended after the first line, even when there is no second line. Empty code under a non-empty indent fails, because there is no first line.
- **Visual transformation.** Running out of input is fatal in any of the three scans of the transformation, including the options brace scan, not only in the search and replace scans.
- **Line breaks.** The line-break test compares a single character against `('\n', '\r\n')`. Only `'\n'` can match, so `'\r'` moves the column like any other character.
- **Number length.** The tab-stop and transformation recognizers look at only ten characters. A number of eight or more digits therefore hides the token. No other kind takes its place: a mirror needs a digit right after the `$`, so the `$`, the `{` and the digits are discarded one character at a time.

## Model

| member | source | states |
|---|---|---|
| TextCursor.Start | plugin/UltiSnips/text_objects/_lexer.py:24-29 | a fresh stream is at index 0 and its position is the caller's offset |
| TextCursor.Next | plugin/UltiSnips/text_objects/_lexer.py:35-48 | running out exactly at the end of the text; otherwise the next character is returned, the index moves by one, a line feed starts a new line at column 0, and any other character moves one column right |
| TextCursor.PeekChar | plugin/UltiSnips/text_objects/_lexer.py:54-57 | `peek()` is the next character, or nothing exactly at the end |
| TextCursor.PeekN | plugin/UltiSnips/text_objects/_lexer.py:52-53 | `peek(n)` is the next `n` characters, fewer near the end, and never fails |
| TextCursor.NextPeekAgree | plugin/UltiSnips/text_objects/_lexer.py:35-57 | `peek()` sees nothing exactly when `next()` runs out, and otherwise sees the character `next()` returns |
| TextCursor.LineBreakIsLineFeed | plugin/UltiSnips/text_objects/_lexer.py:41-43 | the test against `('\n', '\r\n')` holds for exactly the line feed |
| TextCursor.SkipIf | plugin/UltiSnips/text_objects/_lexer.py:161-162 | the next character is consumed exactly when it is one of the given characters; otherwise the stream is unchanged |
| TextCursor.PosAcross | plugin/UltiSnips/text_objects/_lexer.py:59-62 | between two states of one stream, `pos` moves exactly as reading the consumed stretch moves a position |
| TextCursor.PosOrder | plugin/UltiSnips/text_objects/_lexer.py:59-62 | `pos` never moves backwards, and strictly advances when characters are consumed |
| TextUtil.Unescape | plugin/UltiSnips/text_objects/_lexer.py:64-75 | unescaping never lengthens the text, keeps its last character, and leaves backslash-free text unchanged |
| TextUtil.UnescapeQuote | plugin/UltiSnips/text_objects/_lexer.py:64-75 | `_unescape` undoes backslash-quoting of any set of characters |
| TextUtil.UnescapeQuoteThen | plugin/UltiSnips/text_objects/_lexer.py:64-75 | `_unescape` reads a quoted prefix back and goes on with whatever text follows it; since every text is a sequence of such units (a backslash and the next character, or one other character), this pins `_unescape` on all inputs |
| TextUtil.DecimalString | plugin/UltiSnips/text_objects/_lexer.py:86 | the decimal digits of `n` are digits, at least one, and `int()` of them is `n` |
| TextUtil.SplitLinesOf | plugin/UltiSnips/text_objects/_lexer.py:310 | `splitlines()` of lines without line feeds, joined by line feeds and with an optional final line feed, gives those lines back; a last empty line needs the final line feed |
| TextUtil.SplitLinesCanonical | plugin/UltiSnips/text_objects/_lexer.py:310 | every non-empty text is the join of its `splitlines()` lines plus a final line feed exactly when it ends in one, and its last line is empty only when it ends in a line feed |
| TextUtil.SplitLines | plugin/UltiSnips/text_objects/_lexer.py:310 | `splitlines()` gives no lines exactly for empty text; no line holds a line feed; and the lines joined by line feeds, plus the final line feed when the text ends in one, are the text again |
| TextUtil.SplitJoin | plugin/UltiSnips/text_objects/_lexer.py:310-313 | splitting joined line-feed-free lines gives the lines back |
| TextUtil.DropEach | plugin/UltiSnips/text_objects/_lexer.py:312-313 | each line loses its first `k` characters, and shorter lines become empty |
| Scanners.EscapeAt | plugin/UltiSnips/text_objects/_lexer.py:257-262 | an escape starts here exactly when a backslash and one of the given characters are next |
| Scanners.TakeDigits | plugin/UltiSnips/text_objects/_lexer.py:82-84 | the loop consumes the maximal run of digits at the cursor and returns exactly those characters |
| Scanners.ParseNumber | plugin/UltiSnips/text_objects/_lexer.py:77-86 | the number is the value of the maximal digit run, and the stream stops right after the run |
| Scanners.TillClosingBrace | plugin/UltiSnips/text_objects/_lexer.py:88-109 | a found body is the text up to the closing brace, which is consumed but not returned; the body is balanced from depth 1; running out means the rest of the text never closes the brace |
| Scanners.BraceScanFinds | plugin/UltiSnips/text_objects/_lexer.py:95-109 | a balanced body followed by `}` is returned whole, escaped braces included, and the scan stops right after that `}` |
| Scanners.TillClosingBraceMissing | plugin/UltiSnips/text_objects/_lexer.py:97-101 | the brace scan runs out exactly when the rest of the text never closes the brace |
| Scanners.EscapePass | plugin/UltiSnips/text_objects/_lexer.py:120-124 | one pass over the stop characters copies the escapes it meets, and copies nothing exactly when no escaped stop character is next |
| Scanners.EscapedStopIff | plugin/UltiSnips/text_objects/_lexer.py:121-124 | testing each stop character in turn finds an escape exactly when a backslash and some stop character are next |
| Scanners.ScanTill | plugin/UltiSnips/text_objects/_lexer.py:111-130 | a found scan returns the text before the first unescaped stop character, with escapes kept, and returns that consumed character; running out means no unescaped stop character remains |
| Scanners.ScanTillFinds | plugin/UltiSnips/text_objects/_lexer.py:111-130 | text with no unescaped stop character and no final backslash, followed by a stop character, is returned whole together with that character |
| Scanners.ScanTillMissing | plugin/UltiSnips/text_objects/_lexer.py:119-128 | the scan runs out exactly when the rest of the text has no unescaped stop character |
| Scanners.ScanStopsAtOnce | plugin/UltiSnips/text_objects/_lexer.py:119-128 | a stop character right at the cursor ends the scan at once with nothing before it |
| Tokens.ParseEscapeChar | plugin/UltiSnips/text_objects/_lexer.py:264-266 | the backslash and one escapable character are consumed, and the token's text is that character |
| Tokens.DollarNumber | plugin/UltiSnips/text_objects/_lexer.py:156-159 | after `${` the maximal digit run is read as the number, and the stream is left on the `:`, `}` or `/` the recognizer saw |
| Tokens.ParseTabStop | plugin/UltiSnips/text_objects/_lexer.py:155-163 | the span covers the consumed input; the number is the one after `${`; the initial text is balanced and is exactly the text from after the digits (and the `:`, when one follows them) up to the closing brace, which is consumed; running out happens exactly when the text from there never closes the brace, and is never fatal |
| Tokens.TabStopAfter | plugin/UltiSnips/text_objects/_lexer.py:162-163 | the initial text is the balanced text from the given cursor up to the closing brace, the stream stops right after that brace, and running out happens exactly when the brace never closes |
| Tokens.ParseMirror | plugin/UltiSnips/text_objects/_lexer.py:245-247 | `$` and the maximal digit run are consumed, with no length limit, and the number is their value |
| Tokens.TransformParts | plugin/UltiSnips/text_objects/_lexer.py:226-228 | search and replace hold no unescaped `/`, the options are balanced, and the three parts with their `/`, `/` and `}` are exactly the consumed text; running out stops at the end of the text |
| Tokens.PartsAfterSearch | plugin/UltiSnips/text_objects/_lexer.py:227-228 | after a read search part, the replacement and options are read as in the whole scan, and the three parts with their separators are exactly the consumed text |
| Tokens.ParseTransformation | plugin/UltiSnips/text_objects/_lexer.py:218-228 | the span covers the consumed input; the number is the one after `${`; the parts hold no unescaped `/` and balanced options, and with their separators they are exactly the text consumed after the `/` that follows the digits; running out is never fatal |
| Tokens.VisualHead | plugin/UltiSnips/text_objects/_lexer.py:181-185 | eight characters are consumed, plus a ninth exactly when it is `:` |
| Tokens.ParseVisual | plugin/UltiSnips/text_objects/_lexer.py:180-200 | the alternative text is the unescaped text before the first unescaped `/` or `}`; there is a transformation exactly when that character is `/`, and its parts with their separators are exactly the text consumed after it; running out in the alternative text ends the text quietly; the outcome is fatal exactly when the transformation runs out, and the error is the malformed transformation |
| Tokens.VisualTransform | plugin/UltiSnips/text_objects/_lexer.py:189-196 | once a `/` ends the alternative text, the outcome is fatal exactly when the transformation scans run out, and is never the quiet end of the text; a parsed transformation's parts are exactly the consumed text |
| Tokens.StripIndent | plugin/UltiSnips/text_objects/_lexer.py:308-315 | an empty indent keeps the code; under a non-empty indent, empty code fails and any other result holds a line feed |
| Tokens.PythonHead | plugin/UltiSnips/text_objects/_lexer.py:301-304 | three characters are consumed, plus a fourth exactly when it is a space or a tab |
| Tokens.ParsePythonCode | plugin/UltiSnips/text_objects/_lexer.py:300-316 | after the prefix and one optional space or tab, the raw code is the text up to the first unescaped backtick, which is consumed; the parse runs out exactly when no unescaped backtick follows; it fails exactly when the indent is non-empty and a backtick follows at once (the empty-code error); otherwise the code is the raw code with the indent stripped, and the token keeps the indent |
| Tokens.PythonAfterHead | plugin/UltiSnips/text_objects/_lexer.py:306-316 | from any cursor after the prefix: running out exactly when no unescaped backtick follows, failing exactly on an immediate backtick under a non-empty indent, and otherwise the stripped code of the text up to the first unescaped backtick |
| Tokens.PythonStrip | plugin/UltiSnips/text_objects/_lexer.py:308-316 | once the raw code is read: failure exactly when the indent is non-empty and the raw code is empty, otherwise the stripped code, with the cursor after the closing backtick |
| Tokens.ParseVimLCode | plugin/UltiSnips/text_objects/_lexer.py:333-336 | four prefix characters are consumed, whitespace included; the code is the raw text up to the first unescaped backtick, which is consumed and directly follows it; the parse runs out exactly when no unescaped backtick follows the prefix |
| Tokens.ParseShellCode | plugin/UltiSnips/text_objects/_lexer.py:281-283 | one backtick is consumed; the code is the raw text up to the next unescaped backtick, which is consumed and directly follows it; the parse runs out exactly when no unescaped backtick follows the opening one |
| Lexer.FirstMatch | plugin/UltiSnips/text_objects/_lexer.py:359-363 | the chosen kind starts here and no earlier kind in the list does; nothing is chosen exactly when no kind starts |
| Lexer.ParseToken | plugin/UltiSnips/text_objects/_lexer.py:135-139 | a token spans from the stream's position before its `_parse` to the position after it, and has the kind that was tried |
| Lexer.TokenizeFrom | plugin/UltiSnips/text_objects/_lexer.py:352-367 | a successful run ends with exactly one end-of-text token at the end of the text; every other token spans a non-empty stretch; spans follow one another in order |
| Lexer.Tokenize | plugin/UltiSnips/text_objects/_lexer.py:352-355 | tokenizing from the caller's offset gives well-formed output that starts no earlier than the offset |
| Lexer.EndPosition | plugin/UltiSnips/text_objects/_lexer.py:366-367 | the end-of-text token sits where reading the whole text leads from the offset |
| LexerFacts.StartFacts | plugin/UltiSnips/text_objects/_lexer.py:147-331 | what each recognizer needs, stated in the text: a backslash for an escape; `$` for the dollar forms; the exact code prefixes for Python and VimL code; a backtick for shell code |
| LexerFacts.CodeWindow | plugin/UltiSnips/text_objects/_lexer.py:292-298 | the four-character window matches `` `!p`` and whitespace exactly when the text does |
| LexerFacts.DollarFormWindow | plugin/UltiSnips/text_objects/_lexer.py:147-153 | the ten-character window accepts exactly `${`, one to seven digits and a following `:`, `}` or `/` |
| LexerFacts.LongNumberNotRecognized | plugin/UltiSnips/text_objects/_lexer.py:210-216 | eight or more digits after `${` hide a tab stop or transformation from its recognizer |
| LexerFacts.LongNumberNoKind | plugin/UltiSnips/text_objects/_lexer.py:237-243 | at `${` followed by eight or more digits no kind is recognized, not even a mirror, which needs a digit right after `$` |
| LexerFacts.OnlyCodeKindsOverlap | plugin/UltiSnips/text_objects/_lexer.py:348-351 | two kinds can start at one place only as Python or VimL code against shell code |
| LexerFacts.RecognizedFirst | plugin/UltiSnips/text_objects/_lexer.py:359-363 | any kind but shell code is parsed wherever its recognizer accepts |
| LexerFacts.CodeShadowsShell | plugin/UltiSnips/text_objects/_lexer.py:348-351 | Python and VimL code also look like shell code, and their earlier place in the list makes them win |
| LexerFacts.NoKindStarts | plugin/UltiSnips/text_objects/_lexer.py:359-365 | where no backslash, dollar or backtick is next, nothing is recognized |
| LexerFacts.PlainTextHasNoTokens | plugin/UltiSnips/text_objects/_lexer.py:357-367 | text without backslash, dollar or backtick is discarded one character at a time and yields only the end-of-text token |
| RoundTrips.TokenThenRest | plugin/UltiSnips/text_objects/_lexer.py:357-363 | after the first recognized kind parses a token, the driver yields it and carries on where the token ended: its result is that token followed by the tokens of the rest, or the rest's error |
| RoundTrips.OneToken | plugin/UltiSnips/text_objects/_lexer.py:357-367 | a token parsed first and followed by plain text is all the driver yields before the end |
| RoundTrips.FatalStops | plugin/UltiSnips/text_objects/_lexer.py:356-367 | an error raised inside a parser ends tokenization with that error |
| RoundTrips.ExhaustedEnds | plugin/UltiSnips/text_objects/_lexer.py:366-367 | a parser that runs out of input ends tokenization with just the end-of-text token |
| RoundTrips.DollarNumberFind | plugin/UltiSnips/text_objects/_lexer.py:156-159 | `${`, one to seven digits and a follow character are recognized and read back as the value of the digits |
| RoundTrips.TabStopFind | plugin/UltiSnips/text_objects/_lexer.py:155-163 | `${d:v}` or `${d}`, with one to seven digits `d` (leading zeros allowed) and a balanced body `v`, parses back into the value of `d` and `v`, and consumes exactly its text |
| RoundTrips.TabStopParses | plugin/UltiSnips/text_objects/_lexer.py:145-163 | `${d:v}` or `${d}` at the start of a text parses into the value of `d` and `v`, and spans exactly that text |
| RoundTrips.TabStopTokenizes | plugin/UltiSnips/text_objects/_lexer.py:145-163 | `${d:v}` or `${d}` and plain text tokenize into that tab stop and the end-of-text token |
| RoundTrips.TransformPartsFind | plugin/UltiSnips/text_objects/_lexer.py:226-228 | written-out search, replace and options are read back unchanged |
| RoundTrips.TransformationFind | plugin/UltiSnips/text_objects/_lexer.py:218-228 | a written-out transformation with one to seven digits, leading zeros allowed, parses back into the value of its digits and its parts, and consumes exactly its text |
| RoundTrips.TransformationParses | plugin/UltiSnips/text_objects/_lexer.py:207-228 | `${d/s/r/o}` at the start of a text parses into the value of `d` and the parts |
| RoundTrips.TransformationTokenizes | plugin/UltiSnips/text_objects/_lexer.py:207-228 | `${n/s/r/o}` and plain text tokenize into that transformation and the end-of-text token |
| RoundTrips.MirrorFind | plugin/UltiSnips/text_objects/_lexer.py:245-247 | `$` and a digit run not followed by a digit parse back into the value of that run |
| RoundTrips.MirrorParses | plugin/UltiSnips/text_objects/_lexer.py:235-247 | `$n` parses into `n` whatever its length |
| RoundTrips.MirrorTokenizes | plugin/UltiSnips/text_objects/_lexer.py:235-247 | `$n` and plain text that does not start with a digit tokenize into that mirror and the end-of-text token |
| RoundTrips.MirrorsTokenize | plugin/UltiSnips/text_objects/_lexer.py:357-363 | `$n$m` and plain text that does not start with a digit tokenize into both mirrors, one after the other, and the end-of-text token |
| RoundTrips.TabStopUnclosed | plugin/UltiSnips/text_objects/_lexer.py:155-163 | a tab stop `${d:` whose braces never close consumes the rest of the text, and only the end-of-text token follows |
| RoundTrips.TransformationUnclosed | plugin/UltiSnips/text_objects/_lexer.py:224-228 | a transformation that runs out of input in its search, replacement or options part ends the text quietly, with only the end-of-text token |
| RoundTrips.PartsMissing | plugin/UltiSnips/text_objects/_lexer.py:226-228 | the scans of the three parts run out when the text ends inside the search, inside the replacement, or inside the options before their brace closes |
| RoundTrips.SkipOne | plugin/UltiSnips/text_objects/_lexer.py:364-365 | where no kind is recognized, the driver discards one character and carries on from the next |
| RoundTrips.LongNumberSkipped | plugin/UltiSnips/text_objects/_lexer.py:357-367 | `${` followed by eight or more digits and plain text yields only the end-of-text token: every character of it is discarded |
| VisualTrips.VisualRecognized | plugin/UltiSnips/text_objects/_lexer.py:172-178 | `${VISUAL` followed by `:`, `}` or `/` is recognized, and the head stops after the `:` if there is one |
| VisualTrips.AlternativeFind | plugin/UltiSnips/text_objects/_lexer.py:186-187 | alternative text with no unescaped `/` or `}` and no final backslash is scanned up to its stop character, which is consumed |
| VisualTrips.QuotedAlternative | plugin/UltiSnips/text_objects/_lexer.py:64-75 | any text that does not end in a backslash, once quoted, is valid alternative text and unescapes back to itself |
| VisualTrips.VisualFind | plugin/UltiSnips/text_objects/_lexer.py:180-200 | a written-out visual placeholder parses back into its unescaped alternative text and, when it has one, its transformation, and consumes exactly its text |
| VisualTrips.VisualParses | plugin/UltiSnips/text_objects/_lexer.py:170-200 | `${VISUAL:x}` and `${VISUAL:x/s/r/o}` at the start of a text parse into the unescaped `x` and the transformation |
| VisualTrips.VisualTokenizes | plugin/UltiSnips/text_objects/_lexer.py:170-200 | a visual placeholder and plain text tokenize into that placeholder and the end-of-text token |
| VisualTrips.VisualQuotedTokenizes | plugin/UltiSnips/text_objects/_lexer.py:170-200 | any alternative text, written out quoted, tokenizes back into a visual placeholder holding that very text |
| VisualTrips.VisualMalformed | plugin/UltiSnips/text_objects/_lexer.py:189-196 | a visual transformation that runs out of input in its search, replacement or options part fails the whole tokenization with the malformed-transformation error |
| CodeTrips.EscapeCharTokenizes | plugin/UltiSnips/text_objects/_lexer.py:254-266 | a backslash and one of ``{}\$` `` tokenize into that character alone |
| CodeTrips.ShellFind | plugin/UltiSnips/text_objects/_lexer.py:273-283 | written-out shell code parses back verbatim, escapes kept |
| CodeTrips.ShellNotCode | plugin/UltiSnips/text_objects/_lexer.py:292-298 | a shell-code text that does not start with `!p` or `!v` and whitespace is neither Python nor VimL code |
| CodeTrips.ShellTokenizes | plugin/UltiSnips/text_objects/_lexer.py:273-283 | `` `v` `` and plain text tokenize into that shell code and the end-of-text token |
| CodeTrips.VimLFind | plugin/UltiSnips/text_objects/_lexer.py:333-336 | written-out VimL code parses back verbatim, without the whitespace after `` `!v`` |
| CodeTrips.VimLTokenizes | plugin/UltiSnips/text_objects/_lexer.py:323-336 | `` `!v`` code and plain text tokenize into that VimL code and the end-of-text token |
| CodeTrips.PythonHeadFind | plugin/UltiSnips/text_objects/_lexer.py:301-304 | a space or tab after `` `!p`` is skipped, and any other whitespace is left to the code |
| CodeTrips.PythonFind | plugin/UltiSnips/text_objects/_lexer.py:300-316 | written-out Python code is scanned back and then has its indentation stripped, or fails when it is empty under an indent |
| CodeTrips.PythonTokenizes | plugin/UltiSnips/text_objects/_lexer.py:290-316 | `` `!p`` code and plain text tokenize into the stripped Python code and the end-of-text token, or fail exactly when stripping fails |
| CodeTrips.EmptyPythonFails | plugin/UltiSnips/text_objects/_lexer.py:309-311 | `` `!p `` with empty code fails under any non-empty indent |
| CodeTrips.StripIndentLines | plugin/UltiSnips/text_objects/_lexer.py:308-315 | for any code that is a first line and further lines, with or without a final line feed: under a non-empty indent the result is the first line, a line feed, and the further lines each with as many leading characters dropped as the indent is long, joined by line feeds, with any final line feed lost |
| CodeTrips.StripIndentRestores | plugin/UltiSnips/text_objects/_lexer.py:308-315 | removing the indent undoes indenting every later line, and a line feed follows the first line even when no later line exists |

## Left out

- `as_unicode` and the `Position` class of `UltiSnips.geometry` are not part of this model. Text is a sequence of characters, and a position is a (line, column) pair.
- Regular expressions are replaced by explicit predicates over the lookahead window. `\d` and `\s` are taken as ASCII, meaning the digits `0`–`9` and the six ASCII whitespace characters.
- `str.splitlines` is modelled for the line feed only. The other line terminators it also splits on (carriage return, form feed, and so on) are not modelled.
- The `__repr__` methods are not modelled, because they only format tokens for display.
- Everything downstream of the tokens is not part of this model. That includes the tree of editable regions, running code, and snippet loading.
- Lexer.TokenizeFrom: a failure returns only the error, but the source's generator has already yielded the tokens before it. The model gives the whole call one result rather than a lazy sequence.
- Lexer.TokenizeFrom: the discarded plain text is not kept. The contract orders the spans but does not state that tokens and discarded text together rebuild the input.
- RoundTrips.OneToken: the per-kind round trips end in plain text, meaning text with no backslash, dollar or backtick. Longer texts are covered step by step through `RoundTrips.TokenThenRest`, and `RoundTrips.MirrorsTokenize` works one two-token text through; the other kinds have no worked multi-token lemma.
