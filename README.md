# LaTeX highlighter, modelled in Dafny

The editor colours each line of a LaTeX document with a Qt syntax
highlighter, `LatexHighlighter`. Its constructor builds a fixed, ordered
list of five rules. Each rule pairs a regular expression with a character
format:

1. commands: a backslash and a run of ASCII letters;
2. braces: `{` or `}`;
3. inline math: `$...$` without a dollar inside;
4. comments: `%` up to the end of the line;
5. environments: `\begin{name}` or `\end{name}`.

`highlightBlock` walks the rules in that order. For each rule it runs
`finditer` over the line and calls `setFormat` on every match. A character
covered by several rules ends with the format of the last rule that covers
it.

The project has three modules:

- `Matching` (matching.dfy) holds the five patterns as hand-written
  matchers and a model of `finditer`. The matches are found leftmost first,
  each as long as the pattern allows, and the search resumes at the end of
  the previous match. `Scan` is the search loop over any
  matcher, and `FindIter` runs it with a pattern's matcher. `ScanResult` is its
  declarative description: matches in order; no match skipped before, between
  or after them. `ScanUnique` proves that this description has exactly one
  solution.
- `Highlighting` (highlighting.dfy) holds the rule list, the format buffer
  of one line, and the class `LatexHighlighter`. In the class, `SetFormat`
  and `HighlightBlock` update an `array` of formats in place, and each is
  proved equal to a pure function of the old buffer (`Paint`, `Highlight`).
  `LastCover` is an independent reference: the format of the last rule whose
  matches cover a character. `ApplyAt` and `StandardStyleAt` connect it to
  `Highlight`.
- `Scenarios` (scenarios.dfy) works out whole lines of the editor's
  default document (`\section{}`, `\begin{document}`). It also covers a
  comment line holding inline math, where the comment format wins.

Formats are abstract tags (`CommandFormat`, `BraceFormat`, ...). The rule's
colour, weight and italics do not affect which characters it paints, so
they are not modelled.

## Model

| member | source | states |
|---|---|---|
| Matching.MatchCommand | tex_project.py:61 | `\\[a-zA-Z]+` matches at i iff a backslash is followed by an ASCII letter; the match ends at the end of the letter run, which cannot be extended |
| Matching.MatchBrace | tex_project.py:66 | `[{}]` matches at i iff `text[i]` is a brace; the match is one character long |
| Matching.MatchMath | tex_project.py:71 | `\$[^$]*\$` matches at i iff `text[i]` is a dollar and another dollar follows; the match ends just after the next dollar, and no dollar is inside |
| Matching.MatchComment | tex_project.py:77 | `%[^\n]*` matches at i iff `text[i]` is `%`; the match holds no newline and stops at a newline or at the end of the line |
| Matching.EnvNameStart | tex_project.py:83 | the opening `\begin{` or `\end{` stands at i exactly when a name start is returned |
| Matching.MatchEnv | tex_project.py:83 | `\\(begin|end)\{[^}]+\}` matches iff the opening is followed by a non-empty name and a later `}`; the match ends at the first `}` after the name |
| Matching.MatchAt | tex_project.py:55-83 | every pattern's match starts at i and is non-empty and inside the line |
| Matching.Scan | tex_project.py:87 | every match the search loop lists over a line of length n lies in [pos, n) and is non-empty |
| Matching.ScanIsResult | tex_project.py:87 | the leftmost-first, non-overlapping scan of any matcher satisfies `ScanResult`: each listed span is the match at its start; the spans are ordered; no match starts before the first, between two, or after the last |
| Matching.FindIter | tex_project.py:87 | every match `finditer` yields is non-empty, lies inside the line, and starts at or after the start position |
| Matching.MatcherOf | tex_project.py:87 | a pattern over a line is a matcher whose matches are non-empty and inside the line |
| Matching.FindIterResult | tex_project.py:87 | the matches `finditer` yields satisfy `ScanResult` for the pattern's matcher |
| Matching.ScanResultTail | tex_project.py:87 | when a match starts at pos, any list satisfying `ScanResult` begins with that match, and its tail satisfies `ScanResult` from the match's end |
| Matching.ScanUnique | tex_project.py:87 | any list satisfying `ScanResult` is the scan's result: the declarative description determines the matches |
| Matching.FindIterIs | tex_project.py:87 | any list satisfying `ScanResult` for a pattern is what `finditer` returns |
| Matching.ResultOrdered | tex_project.py:87 | the spans of a scan are disjoint and in left-to-right order |
| Matching.FindIterOrdered | tex_project.py:87 | the matches of one pattern are disjoint and in left-to-right order |
| Matching.ScanEmpty | tex_project.py:87 | a scan is empty iff no match starts at or after its start position |
| Matching.FindIterEmpty | tex_project.py:87 | `finditer` yields nothing iff no match of the pattern starts at or after the start position |
| Matching.FindIterMatchAt | tex_project.py:87-88 | each yielded match is the pattern's match at its own start, with the same end |
| Matching.NoLeaderNoMatch | tex_project.py:55-83 | a line without any character that can start a pattern's match has no match of it |
| Matching.CommandMatchShape | tex_project.py:61 | each command match is a backslash and a maximal run of at least one ASCII letter |
| Matching.MathMatchShape | tex_project.py:71 | each math match begins and ends with a dollar and has no dollar inside |
| Matching.CommentMatchShape | tex_project.py:77 | each comment match starts at `%` and ends at a newline or at the end of the line |
| Matching.EnvMatchAtShape | tex_project.py:83 | an environment match at i satisfies `EnvShape`: `\begin{` or `\end{`, a non-empty name without `}`, and a closing `}` |
| Matching.EnvMatchShape | tex_project.py:83 | each environment match `finditer` yields satisfies `EnvShape` |
| Matching.BraceCover | tex_project.py:66 | a character is covered by a brace match iff it is a brace |
| Matching.BraceSpansAreSingle | tex_project.py:66 | every brace match is one character long |
| Matching.CommentRunsToEnd | tex_project.py:77 | in a line without newlines, the comment rule matches once, from the first `%` to the end of the line |
| Matching.MathResumesAfterClose | tex_project.py:71 | in `$a$b$` only `$a$` matches: the search resumes after the closing dollar, which therefore cannot open a second match |
| Matching.EmptyEnvNameNoMatch | tex_project.py:83 | `\begin{}` is not an environment match, because the name must be non-empty |
| Highlighting.Paint | tex_project.py:89 | `setFormat(start, end - start, fmt)` gives `fmt` to exactly the characters in [start, end) that lie inside the line, and leaves every other character alone |
| Highlighting.PaintAllAt | tex_project.py:87-89 | after one rule's matches are painted, a character has the rule's format iff one of its matches covers it, and otherwise keeps its format |
| Highlighting.StandardRules | tex_project.py:55-83 | the rule list has five rules with distinct patterns and distinct, real formats; `StandardPasses` and `StandardStyleAt` give their order and what it decides |
| Highlighting.PaintAll | tex_project.py:87-89 | the inner loop (one `setFormat` per match of one rule) keeps the buffer's length; `PaintAllAt` gives each character's value |
| Highlighting.Passes | tex_project.py:86-87 | one `finditer` pass per rule, in rule order, each carrying its rule's format; `StandardPasses` spells out the five passes of the standard list |
| Highlighting.Apply | tex_project.py:86-89 | the outer loop over the passes keeps the buffer's length; `ApplyAt` gives each character's value: the format of the last covering pass, or the prior one |
| Highlighting.Highlight | tex_project.py:85-89 | `highlightBlock` as a fold: the rules' passes applied one after another to the buffer, keeping its length; `ApplyAt` and `StandardStyleAt` give each character's resulting format |
| Highlighting.LastCoverFound | tex_project.py:85-89 | the reference `LastCover` finds a format iff some rule's matches cover the character |
| Highlighting.LastCoverSpec | tex_project.py:85-89 | the format `LastCover` finds is that of a rule whose matches cover the character while no later rule's matches do |
| Highlighting.ApplyAt | tex_project.py:85-89 | after the pass, each character has the format of the last rule whose matches cover it, or its prior format if none do |
| Highlighting.HighlightIdempotent | tex_project.py:85-89 | highlighting a line a second time changes nothing |
| Highlighting.StandardPasses | tex_project.py:55-83 | the standard rule list yields one pass per rule, in the order the constructor appends them |
| Highlighting.StandardStyleAt | tex_project.py:55-89 | with the standard rules, the winning format is environment, then comment, then math, then brace, then command; a character no rule covers keeps its format |
| Highlighting.CommentStyleToEnd | tex_project.py:77-89 | in a line without newlines, everything from the first `%` on is shown as a comment, except where an environment match overrides it |
| Highlighting.LatexHighlighter.constructor | tex_project.py:53-83 | the rule list is the five rules in order: command, brace, math, comment, environment |
| Highlighting.LatexHighlighter.PrepareBlock | tex_project.py:85 | the host hands `highlightBlock` a cleared format buffer as long as the line; the rules are untouched |
| Highlighting.LatexHighlighter.SetFormat | tex_project.py:89 | the buffer becomes `Paint` of the old buffer: [start, start + count) clipped to the line takes the format |
| Highlighting.LatexHighlighter.PaintMatches | tex_project.py:87-89 | the inner loop: the buffer becomes `PaintAll` of the old buffer with one rule's matches, each of which, like every `re` match, ends no earlier than it starts |
| Highlighting.LatexHighlighter.HighlightBlock | tex_project.py:85-89 | the buffer becomes `Highlight` of the rule list, the line and the old buffer, so `ApplyAt` and `StandardStyleAt` describe each character |
| Scenarios.SectionCommand | tex_project.py:45 | in `\section{}` the command rule matches `\section` once |
| Scenarios.SectionOthers | tex_project.py:45 | in `\section{}` the math, comment and environment rules match nothing |
| Scenarios.SectionBraces | tex_project.py:45 | in `\section{}` the brace rule covers exactly the last two characters |
| Scenarios.SectionLine | tex_project.py:45 | `\section{}` ends with `\section` in the command format and both braces in the brace format |
| Scenarios.BeginDocumentEnv | tex_project.py:41 | the environment rule matches the whole of `\begin{document}` once |
| Scenarios.BeginDocumentLine | tex_project.py:41 | `\begin{document}` ends wholly in the environment format, which overrides the command and brace formats |
| Scenarios.CommentLineMath | tex_project.py:71 | in `% comment $x$` the math rule does match `$x$` |
| Scenarios.CommentOverridesMath | tex_project.py:71-89 | yet the whole of `% comment $x$` ends in the comment format, because the comment rule runs after the math rule |

## Left out

- The window and its buttons, the file dialogs, open and save, the
  terminal launch and the compile command (tex_project.py:101-205). They are
  GUI and I/O, not highlighting.
- Plain-text paste (`PlainTextEdit.insertFromMimeData`, tex_project.py:93-98).
  It is Qt clipboard glue that does not touch formats.
- The concrete colours, weights and italics of the five formats. Each
  format is an abstract tag, since only which characters a rule paints is
  modelled.
- Python's general regular-expression engine. Only the five patterns of the
  rule list are modelled, each as a hand-written matcher with the same
  leftmost-greedy result.
- How Qt splits a document into lines and when it re-highlights them.
  `PrepareBlock` stands for the host handing over a cleared buffer as long
  as the line. The format ranges Qt merges afterwards are not modelled.
- Positions are Unicode scalar values, one `char` each, as Python's `re`
  indexes them. Qt's `setFormat` counts a character outside the Basic
  Multilingual Plane as two UTF-16 units. The model does not capture that
  shift of the painted range on lines holding such characters.
- The clipping in `SetFormat` and `Paint` follows Qt's `setFormat`. A start
  at or past the end of the line does nothing, and a range reaching past the
  end is cut off. In the source every match lies inside the line, so the
  clipping never takes effect. Negative starts cannot occur, since a start is
  a match position.
- `LatexHighlighter.constructor`: the `document` argument and the
  `QSyntaxHighlighter` base class are not modelled. The format buffer starts
  empty until `PrepareBlock`.
- The default document template (tex_project.py:18-49) is used only as input
  to the scenario lemmas.
- The command pattern's `[a-zA-Z]` is ASCII-only. The model follows the code
  here, not the looser description "a backslash followed by letters".
