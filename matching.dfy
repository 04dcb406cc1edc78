/** The five regular expressions of the LaTeX highlighter, written out as
    hand-made matchers, and `finditer`: every non-overlapping match of one
    pattern in one line, found leftmost first, each as long as the pattern
    allows, the search resuming where the previous match ended. */
module Matching {

  datatype Option<T> = None | Some(value: T)

  /** One match: the half-open range [start, end) of the line. */
  datatype Span = Span(start: nat, end: nat)

  /** The patterns of the highlighter's rule list, in Python `re` syntax. */
  datatype Pattern =
    | CommandPattern  // \\[a-zA-Z]+
    | BracePattern    // [{}]
    | MathPattern     // \$[^$]*\$
    | CommentPattern  // %[^\n]*
    | EnvPattern      // \\(begin|end)\{[^}]+\}

  /** The class [a-zA-Z]: ASCII letters only. */
  predicate IsAsciiLetter(ch: char) {
    'a' <= ch <= 'z' || 'A' <= ch <= 'Z'
  }

  /** The first index at or after `j` holding `ch`, or |text| when there is none. */
  function IndexOf(text: string, ch: char, j: nat): (k: nat)
    requires j <= |text|
    decreases |text| - j
    ensures j <= k <= |text|
    ensures k < |text| ==> text[k] == ch
    ensures forall q :: j <= q < k ==> text[q] != ch
  {
    if j == |text| || text[j] == ch then j else IndexOf(text, ch, j + 1)
  }

  /** The end of the run of ASCII letters that starts at `j`. */
  function LettersEnd(text: string, j: nat): (k: nat)
    requires j <= |text|
    decreases |text| - j
    ensures j <= k <= |text|
    ensures k < |text| ==> !IsAsciiLetter(text[k])
    ensures forall q :: j <= q < k ==> IsAsciiLetter(text[q])
  {
    if j == |text| || !IsAsciiLetter(text[j]) then j else LettersEnd(text, j + 1)
  }

  /** `\\[a-zA-Z]+` at `i`: a backslash and the longest run of letters after it. */
  function MatchCommand(text: string, i: nat): (r: Option<nat>)
    ensures r.Some? <==> i + 1 < |text| && text[i] == '\\' && IsAsciiLetter(text[i + 1])
    ensures r.Some? ==>
      && i + 2 <= r.value <= |text|
      && (forall q :: i < q < r.value ==> IsAsciiLetter(text[q]))
      && (r.value < |text| ==> !IsAsciiLetter(text[r.value]))
  {
    if i + 1 < |text| && text[i] == '\\' && IsAsciiLetter(text[i + 1]) then
      Some(LettersEnd(text, i + 1))
    else
      None
  }

  /** `[{}]` at `i`: one brace character. */
  function MatchBrace(text: string, i: nat): (r: Option<nat>)
    ensures r.Some? <==> i < |text| && (text[i] == '{' || text[i] == '}')
    ensures r.Some? ==> r.value == i + 1
  {
    if i < |text| && text[i] in {'{', '}'} then Some(i + 1) else None
  }

  /** `\$[^$]*\$` at `i`: from a dollar to the next dollar. Without a later
      dollar the greedy run cannot be shortened into a match, so there is none. */
  function MatchMath(text: string, i: nat): (r: Option<nat>)
    ensures r.Some? <==> i < |text| && text[i] == '$' && exists q :: i < q < |text| && text[q] == '$'
    ensures r.Some? ==>
      && i + 2 <= r.value <= |text|
      && text[r.value - 1] == '$'
      && forall q :: i < q < r.value - 1 ==> text[q] != '$'
  {
    if i < |text| && text[i] == '$' then
      var close := IndexOf(text, '$', i + 1);
      if close < |text| then Some(close + 1) else None
    else
      None
  }

  /** `%[^\n]*` at `i`: from a percent sign to the next newline, or to the end. */
  function MatchComment(text: string, i: nat): (r: Option<nat>)
    ensures r.Some? <==> i < |text| && text[i] == '%'
    ensures r.Some? ==>
      && i < r.value <= |text|
      && (forall q :: i <= q < r.value ==> text[q] != '\n')
      && (r.value < |text| ==> text[r.value] == '\n')
  {
    if i < |text| && text[i] == '%' then Some(IndexOf(text, '\n', i + 1)) else None
  }

  /** Where the name starts when `\begin{` or `\end{` stands at `i`. */
  function EnvNameStart(text: string, i: nat): (r: Option<nat>)
    ensures r.Some? ==>
      && i + 5 <= r.value <= |text|
      && text[i] == '\\'
      && (text[i..r.value] == "\\begin{" || text[i..r.value] == "\\end{")
    ensures r.None? ==>
      && (i + 7 <= |text| ==> text[i..i + 7] != "\\begin{")
      && (i + 5 <= |text| ==> text[i..i + 5] != "\\end{")
  {
    if i + 7 <= |text| && text[i..i + 7] == "\\begin{" then
      assert text[i] == text[i..i + 7][0];
      Some(i + 7)
    else if i + 5 <= |text| && text[i..i + 5] == "\\end{" then
      assert text[i] == text[i..i + 5][0];
      Some(i + 5)
    else None
  }

  /** `\\(begin|end)\{[^}]+\}` at `i`: the opening, a non-empty name without
      a closing brace, and the first closing brace after it. */
  function MatchEnv(text: string, i: nat): (r: Option<nat>)
    ensures r.Some? <==>
      && EnvNameStart(text, i).Some?
      && var k := EnvNameStart(text, i).value;
         k < |text| && text[k] != '}' && exists q :: k < q < |text| && text[q] == '}'
    ensures r.Some? ==>
      && EnvNameStart(text, i).Some?
      && var k := EnvNameStart(text, i).value;
         && k + 2 <= r.value <= |text|
         && text[r.value - 1] == '}'
         && forall q :: k <= q < r.value - 1 ==> text[q] != '}'
  {
    match EnvNameStart(text, i)
    case None => None
    case Some(k) =>
      if k < |text| && text[k] != '}' then
        var close := IndexOf(text, '}', k + 1);
        if close < |text| then Some(close + 1) else None
      else
        None
  }

  /** The match of pattern `p` that starts at `i`, as its end index. Every
      pattern consumes at least one character. */
  function MatchAt(p: Pattern, text: string, i: nat): (r: Option<nat>)
    ensures r.Some? ==> i < r.value <= |text|
  {
    match p
    case CommandPattern => MatchCommand(text, i)
    case BracePattern => MatchBrace(text, i)
    case MathPattern => MatchMath(text, i)
    case CommentPattern => MatchComment(text, i)
    case EnvPattern => MatchEnv(text, i)
  }

  /** A matcher of one pattern over a line of length `n`: at each index it
      gives the end of the match starting there, if any. No match is empty. */
  ghost predicate IsMatcher(m: nat -> Option<nat>, n: nat) {
    forall i: nat :: m(i).Some? ==> i < m(i).value <= n
  }

  /** No match of `m` starts anywhere in [lo, hi). */
  ghost predicate NoMatchIn(m: nat -> Option<nat>, lo: nat, hi: nat) {
    forall q: nat :: lo <= q < hi ==> m(q) == None
  }

  /** Match k - 1 ends before match k starts, and no match starts in between. */
  ghost predicate GapBefore(m: nat -> Option<nat>, r: seq<Span>, k: nat)
    requires 0 < k < |r|
  {
    r[k - 1].end <= r[k].start && NoMatchIn(m, r[k - 1].end, r[k].start)
  }

  /** What `Scan` promises about the matches `r` it finds from `pos` on. */
  ghost predicate ScanResult(m: nat -> Option<nat>, n: nat, pos: nat, r: seq<Span>) {
    && (forall k :: 0 <= k < |r| ==> pos <= r[k].start < r[k].end <= n)
    && (forall k :: 0 <= k < |r| ==> m(r[k].start) == Some(r[k].end))
    && (forall k :: 0 < k < |r| ==> GapBefore(m, r, k))
    && NoMatchIn(m, pos, if r == [] then n else r[0].start)
    && (r != [] ==> NoMatchIn(m, r[|r| - 1].end, n))
  }

  /** A match found at `pos`, followed by what the scan finds from its end. */
  lemma ScanCons(m: nat -> Option<nat>, n: nat, pos: nat, e: nat, rest: seq<Span>)
    requires pos < e <= n && m(pos) == Some(e)
    requires ScanResult(m, n, e, rest)
    ensures ScanResult(m, n, pos, [Span(pos, e)] + rest)
  {
    var r := [Span(pos, e)] + rest;
    forall k | 0 < k < |r|
      ensures r[k] == rest[k - 1]
    {
    }
    forall k | 0 < k < |r|
      ensures GapBefore(m, r, k)
    {
      if k > 1 {
        assert GapBefore(m, rest, k - 1);
      }
    }
    assert r[|r| - 1].end == if rest == [] then e else rest[|rest| - 1].end;
  }

  /** A position where no match starts can be added to the front of a
      scan's range. */
  lemma ScanWiden(m: nat -> Option<nat>, n: nat, pos: nat, r: seq<Span>)
    requires m(pos) == None
    requires ScanResult(m, n, pos + 1, r)
    ensures ScanResult(m, n, pos, r)
  {
  }

  /** A position where no match starts can be dropped from the front of a
      scan's range. */
  lemma ScanNarrow(m: nat -> Option<nat>, n: nat, pos: nat, r: seq<Span>)
    requires m(pos) == None
    requires ScanResult(m, n, pos, r)
    ensures ScanResult(m, n, pos + 1, r)
  {
    if r != [] {
      assert r[0].start != pos;
    }
  }

  /** The search loop of `finditer` over a line of length `n`, from `pos`: at
      each position either a match starts there and the search resumes at its
      end, or it moves one further. */
  function Scan(m: nat -> Option<nat>, n: nat, pos: nat): (r: seq<Span>)
    requires IsMatcher(m, n)
    decreases n + 1 - pos
    ensures forall k :: 0 <= k < |r| ==> pos <= r[k].start < r[k].end <= n
  {
    if pos > n then []
    else
      match m(pos)
      case Some(e) => [Span(pos, e)] + Scan(m, n, e)
      case None => Scan(m, n, pos + 1)
  }

  /** The scan lists every match it meets, in order, and skips none. */
  lemma {:induction false} ScanIsResult(m: nat -> Option<nat>, n: nat, pos: nat)
    requires IsMatcher(m, n)
    ensures ScanResult(m, n, pos, Scan(m, n, pos))
    decreases n + 1 - pos
  {
    if pos <= n {
      match m(pos)
      case Some(e) =>
        var rest := Scan(m, n, e);
        ScanIsResult(m, n, e);
        ScanCons(m, n, pos, e, rest);
        assert Scan(m, n, pos) == [Span(pos, e)] + rest;
      case None =>
        var rest := Scan(m, n, pos + 1);
        ScanIsResult(m, n, pos + 1);
        ScanWiden(m, n, pos, rest);
        assert Scan(m, n, pos) == rest;
    }
  }

  /** The matcher of pattern `p` on the line `text`. */
  function MatcherOf(p: Pattern, text: string): (m: nat -> Option<nat>)
    ensures IsMatcher(m, |text|)
  {
    (i: nat) => MatchAt(p, text, i)
  }

  /** `p.finditer(text, pos)`: the search loop run with the matcher of `p`. */
  function FindIter(p: Pattern, text: string, pos: nat := 0): (r: seq<Span>)
    ensures forall k :: 0 <= k < |r| ==> pos <= r[k].start < r[k].end <= |text|
  {
    Scan(MatcherOf(p, text), |text|, pos)
  }

  /** So the matches of `finditer` have every property `ScanResult` lists. */
  lemma FindIterResult(p: Pattern, text: string, pos: nat)
    ensures ScanResult(MatcherOf(p, text), |text|, pos, FindIter(p, text, pos))
  {
    ScanIsResult(MatcherOf(p, text), |text|, pos);
  }

  /** Some span of `spans` covers index `c`. */
  predicate Covered(spans: seq<Span>, c: nat) {
    exists k :: 0 <= k < |spans| && spans[k].start <= c < spans[k].end
  }

  lemma CoveredCons(sp: Span, rest: seq<Span>, c: nat)
    ensures Covered([sp] + rest, c) <==> (sp.start <= c < sp.end || Covered(rest, c))
  {
    var s := [sp] + rest;
    if Covered(rest, c) {
      var k :| 0 <= k < |rest| && rest[k].start <= c < rest[k].end;
      assert s[k + 1] == rest[k];
    }
    if Covered(s, c) && !(sp.start <= c < sp.end) {
      var k :| 0 <= k < |s| && s[k].start <= c < s[k].end;
      assert k > 0 && s[k] == rest[k - 1];
    }
  }

  /** Matches listed by a scan are pairwise disjoint and in left-to-right order. */
  lemma {:induction false} ResultOrdered(m: nat -> Option<nat>, n: nat, pos: nat, r: seq<Span>, k1: nat, k2: nat)
    requires ScanResult(m, n, pos, r)
    requires k1 < k2 < |r|
    ensures r[k1].end <= r[k2].start
    decreases k2 - k1
  {
    assert GapBefore(m, r, k2);
    if k1 + 1 < k2 {
      ResultOrdered(m, n, pos, r, k1, k2 - 1);
    }
  }

  /** A scan finds nothing exactly when no match starts at or after `pos`. */
  lemma ScanEmpty(m: nat -> Option<nat>, n: nat, pos: nat)
    requires IsMatcher(m, n)
    ensures Scan(m, n, pos) == [] <==> NoMatchIn(m, pos, n)
  {
    var r := Scan(m, n, pos);
    ScanIsResult(m, n, pos);
    if r != [] {
      assert m(r[0].start) == Some(r[0].end);
    }
  }

  /** When a match starts at `pos`, a list with the properties of `ScanResult`
      begins with that match, and its tail has them from the match's end on. */
  lemma ScanResultTail(m: nat -> Option<nat>, n: nat, pos: nat, e: nat, r: seq<Span>)
    requires IsMatcher(m, n) && m(pos) == Some(e)
    requires ScanResult(m, n, pos, r)
    ensures r != [] && r[0] == Span(pos, e)
    ensures ScanResult(m, n, e, r[1..])
  {
    assert r != [];
    assert r[0].start == pos;
    var tail := r[1..];
    forall k | 0 <= k < |tail|
      ensures e <= tail[k].start
    {
      ResultOrdered(m, n, pos, r, 0, k + 1);
    }
    forall k | 0 < k < |tail|
      ensures GapBefore(m, tail, k)
    {
      assert GapBefore(m, r, k + 1);
    }
    assert tail != [] ==> GapBefore(m, r, 1);
  }

  /** `ScanResult` pins the scan down: it is the only list of matches with
      those properties. */
  lemma {:induction false} ScanUnique(m: nat -> Option<nat>, n: nat, pos: nat, r: seq<Span>)
    requires IsMatcher(m, n)
    requires ScanResult(m, n, pos, r)
    ensures r == Scan(m, n, pos)
    decreases n + 1 - pos
  {
    if pos <= n {
      match m(pos)
      case Some(e) =>
        ScanResultTail(m, n, pos, e, r);
        ScanUnique(m, n, e, r[1..]);
        assert r == [Span(pos, e)] + r[1..];
      case None =>
        ScanNarrow(m, n, pos, r);
        ScanUnique(m, n, pos + 1, r);
    }
  }

  /** Any list of matches with the properties of `ScanResult` is what
      `finditer` returns. */
  lemma FindIterIs(p: Pattern, text: string, pos: nat, r: seq<Span>)
    requires ScanResult(MatcherOf(p, text), |text|, pos, r)
    ensures FindIter(p, text, pos) == r
  {
    FindIterResult(p, text, pos);
    ScanUnique(MatcherOf(p, text), |text|, pos, r);
  }

  /** The matches of one pattern are pairwise disjoint and in left-to-right order. */
  lemma FindIterOrdered(p: Pattern, text: string, k1: nat, k2: nat)
    requires k1 < k2 < |FindIter(p, text)|
    ensures FindIter(p, text)[k1].end <= FindIter(p, text)[k2].start
  {
    FindIterResult(p, text, 0);
    ResultOrdered(MatcherOf(p, text), |text|, 0, FindIter(p, text), k1, k2);
  }

  /** `finditer` finds nothing exactly when no match starts at or after `pos`. */
  lemma FindIterEmpty(p: Pattern, text: string, pos: nat)
    ensures FindIter(p, text, pos) == [] <==> forall q :: pos <= q < |text| ==> MatchAt(p, text, q) == None
  {
    FindIterResult(p, text, pos);
    ScanEmpty(MatcherOf(p, text), |text|, pos);
    assert forall q: nat :: MatcherOf(p, text)(q) == MatchAt(p, text, q);
  }

  /** Each match `finditer` lists is the match of the pattern at its start. */
  lemma FindIterMatchAt(p: Pattern, text: string, k: nat)
    requires k < |FindIter(p, text)|
    ensures MatchAt(p, text, FindIter(p, text)[k].start) == Some(FindIter(p, text)[k].end)
  {
    FindIterResult(p, text, 0);
  }

  /** The characters a match of `p` can start with. */
  function Leaders(p: Pattern): set<char> {
    match p
    case CommandPattern => {'\\'}
    case BracePattern => {'{', '}'}
    case MathPattern => {'$'}
    case CommentPattern => {'%'}
    case EnvPattern => {'\\'}
  }

  /** A line with no leading character of `p` from `pos` on has no match of `p` there. */
  lemma NoLeaderNoMatch(p: Pattern, text: string, pos: nat)
    requires forall q :: pos <= q < |text| ==> text[q] !in Leaders(p)
    ensures FindIter(p, text, pos) == []
  {
    FindIterEmpty(p, text, pos);
  }

  /** A command match is a backslash and a run of letters that cannot be extended. */
  lemma CommandMatchShape(text: string, k: nat)
    requires k < |FindIter(CommandPattern, text)|
    ensures var sp := FindIter(CommandPattern, text)[k];
      && text[sp.start] == '\\'
      && sp.start + 2 <= sp.end
      && (forall q :: sp.start < q < sp.end ==> IsAsciiLetter(text[q]))
      && (sp.end < |text| ==> !IsAsciiLetter(text[sp.end]))
  {
    FindIterMatchAt(CommandPattern, text, k);
  }

  /** A math match starts and ends with a dollar and has none inside. */
  lemma MathMatchShape(text: string, k: nat)
    requires k < |FindIter(MathPattern, text)|
    ensures var sp := FindIter(MathPattern, text)[k];
      && sp.start + 2 <= sp.end
      && text[sp.start] == '$' && text[sp.end - 1] == '$'
      && '$' !in text[sp.start + 1..sp.end - 1]
  {
    FindIterMatchAt(MathPattern, text, k);
  }

  /** A comment match runs from a percent sign to just before the next
      newline, or to the end of the line. */
  lemma CommentMatchShape(text: string, k: nat)
    requires k < |FindIter(CommentPattern, text)|
    ensures var sp := FindIter(CommentPattern, text)[k];
      && text[sp.start] == '%'
      && '\n' !in text[sp.start..sp.end]
      && (sp.end == |text| || text[sp.end] == '\n')
  {
    FindIterMatchAt(CommentPattern, text, k);
  }

  /** [i, e) is `\begin{` or `\end{`, a non-empty name without a closing
      brace, and a closing brace. */
  ghost predicate EnvShape(text: string, i: nat, e: nat) {
    && e <= |text|
    && exists name: nat ::
      && i + 5 <= name < e - 1
      && (text[i..name] == "\\begin{" || text[i..name] == "\\end{")
      && '}' !in text[name..e - 1]
      && text[e - 1] == '}'
  }

  /** An environment match at `i` ending at `e` has that shape. */
  lemma EnvMatchAtShape(text: string, i: nat, e: nat)
    requires MatchAt(EnvPattern, text, i) == Some(e)
    ensures EnvShape(text, i, e)
  {
    var name := EnvNameStart(text, i).value;
    assert i + 5 <= name < e - 1;
  }

  /** Every environment match has that shape. */
  lemma EnvMatchShape(text: string, k: nat)
    requires k < |FindIter(EnvPattern, text)|
    ensures EnvShape(text, FindIter(EnvPattern, text)[k].start, FindIter(EnvPattern, text)[k].end)
  {
    FindIterMatchAt(EnvPattern, text, k);
    var sp := FindIter(EnvPattern, text)[k];
    EnvMatchAtShape(text, sp.start, sp.end);
  }

  /** The brace rule covers exactly the brace characters, one span each. */
  lemma {:induction false} BraceCover(text: string, pos: nat, c: nat)
    requires pos <= c < |text|
    ensures Covered(FindIter(BracePattern, text, pos), c) <==> (text[c] == '{' || text[c] == '}')
    decreases c - pos
  {
    var r := FindIter(BracePattern, text, pos);
    var rest := FindIter(BracePattern, text, pos + 1);
    if MatchBrace(text, pos).Some? {
      assert r == [Span(pos, pos + 1)] + rest;
      CoveredCons(Span(pos, pos + 1), rest, c);
    } else {
      assert r == rest;
    }
    if c > pos {
      BraceCover(text, pos + 1, c);
    }
  }

  /** Every match of the brace rule is a single character. */
  lemma BraceSpansAreSingle(text: string)
    ensures forall k :: 0 <= k < |FindIter(BracePattern, text)| ==>
      FindIter(BracePattern, text)[k].end == FindIter(BracePattern, text)[k].start + 1
  {
    FindIterResult(BracePattern, text, 0);
  }

  /** In a line without newlines, the comment rule matches once, from the
      first percent sign to the end of the line. */
  lemma {:induction false} CommentRunsToEnd(text: string, i: nat, pos: nat)
    requires pos <= i < |text| && text[i] == '%'
    requires '%' !in text[..i] && '\n' !in text
    ensures FindIter(CommentPattern, text, pos) == [Span(i, |text|)]
    decreases i - pos
  {
    if pos < i {
      assert text[pos] in text[..i];
      CommentRunsToEnd(text, i, pos + 1);
    } else {
      assert MatchAt(CommentPattern, text, i) == Some(|text|);
      assert FindIter(CommentPattern, text, |text|) == FindIter(CommentPattern, text, |text| + 1) == [];
    }
  }

  /** Scanning resumes after the closing dollar: in `$a$b$` only `$a$` matches. */
  lemma MathResumesAfterClose()
    ensures FindIter(MathPattern, "$a$b$") == [Span(0, 3)]
  {
    var t := "$a$b$";
    assert MatchAt(MathPattern, t, 0) == Some(3);
    assert FindIter(MathPattern, t, 5) == FindIter(MathPattern, t, 6) == [];
    assert MatchAt(MathPattern, t, 4) == None by {
      assert t[5..] == [];
    }
    assert FindIter(MathPattern, t, 4) == [];
    assert MatchAt(MathPattern, t, 3) == None;
    assert FindIter(MathPattern, t, 3) == [];
  }

  /** An environment name must be non-empty: `\begin{}` does not match. */
  lemma EmptyEnvNameNoMatch()
    ensures FindIter(EnvPattern, "\\begin{}") == []
  {
    var t := "\\begin{}";
    var m := MatcherOf(EnvPattern, t);
    forall q: nat | 0 <= q < |t| ensures m(q) == None {
      if q > 0 {
        assert t[q] in t[1..];
      }
    }
    FindIterResult(EnvPattern, t, 0);
    ScanEmpty(m, |t|, 0);
  }
}
