/** The highlighter proper: the fixed, ordered rule list and the per-line
    pass that paints every match of every rule into a per-character format
    buffer, so that the last rule to touch a character decides its style. */
module Highlighting {
  import opened Matching

  /** The character formats of the rules, as abstract tags; `NoFormat` is
      the format a character has before any rule paints it. */
  datatype Style = NoFormat | CommandFormat | BraceFormat | MathFormat | CommentFormat | EnvFormat

  /** One highlighting rule: a pattern and the format of its matches. */
  datatype Rule = Rule(pattern: Pattern, style: Style)

  /** The rule list, in the order the highlighter builds it. */
  function StandardRules(): (r: seq<Rule>)
    ensures |r| == 5
    ensures forall k, j :: 0 <= k < j < |r| ==> r[k].pattern != r[j].pattern && r[k].style != r[j].style
    ensures forall k :: 0 <= k < |r| ==> r[k].style != NoFormat
  {
    [ Rule(CommandPattern, CommandFormat),
      Rule(BracePattern, BraceFormat),
      Rule(MathPattern, MathFormat),
      Rule(CommentPattern, CommentFormat),
      Rule(EnvPattern, EnvFormat) ]
  }

  /** Characters [start, end) of a buffer take format `s`; the range is
      clipped to the buffer, and a start past its end changes nothing. */
  function Paint(buf: seq<Style>, start: nat, end: nat, s: Style): (r: seq<Style>)
    ensures |r| == |buf|
    ensures forall c :: 0 <= c < |r| ==> r[c] == (if start <= c < end then s else buf[c])
  {
    if start >= |buf| || end <= start then buf
    else
      var stop := if end < |buf| then end else |buf|;
      buf[..start] + seq(stop - start, _ => s) + buf[stop..]
  }

  /** Paints every span of `spans`, in order, with format `s`. */
  function PaintAll(buf: seq<Style>, spans: seq<Span>, s: Style): (r: seq<Style>)
    ensures |r| == |buf|
  {
    if spans == [] then buf
    else
      var last := spans[|spans| - 1];
      Paint(PaintAll(buf, spans[..|spans| - 1], s), last.start, last.end, s)
  }

  /** One rule's pass over a line: the matches it found and its format. */
  datatype Pass = Pass(spans: seq<Span>, style: Style)

  /** The pass of each rule of `rules` over the line `text`, in rule order. */
  function Passes(rules: seq<Rule>, text: string): (r: seq<Pass>)
    ensures |r| == |rules|
    ensures forall k :: 0 <= k < |r| ==> r[k].style == rules[k].style
  {
    seq(|rules|, k requires 0 <= k < |rules| => Pass(FindIter(rules[k].pattern, text), rules[k].style))
  }

  /** The formats after painting the passes one after another over `buf`. */
  function Apply(buf: seq<Style>, passes: seq<Pass>): (r: seq<Style>)
    ensures |r| == |buf|
  {
    if passes == [] then buf
    else
      var n := |passes| - 1;
      PaintAll(Apply(buf, passes[..n]), passes[n].spans, passes[n].style)
  }

  /** The formats of the line `text` after the rules of `rules`, starting
      from the buffer `buf`. */
  function Highlight(rules: seq<Rule>, text: string, buf: seq<Style>): (r: seq<Style>)
    ensures |r| == |buf|
  {
    Apply(buf, Passes(rules, text))
  }

  /** The format of the last pass with a span covering character `c`, or
      None when no span of any pass covers it. */
  function LastCover(passes: seq<Pass>, c: nat): Option<Style> {
    if passes == [] then None
    else
      var n := |passes| - 1;
      if Covered(passes[n].spans, c) then Some(passes[n].style)
      else LastCover(passes[..n], c)
  }

  /** Pass k covers character c and no later pass does. */
  ghost predicate LastCoveringPass(passes: seq<Pass>, c: nat, k: nat) {
    && k < |passes|
    && Covered(passes[k].spans, c)
    && forall j :: k < j < |passes| ==> !Covered(passes[j].spans, c)
  }

  /** LastCover finds a format exactly when some pass covers c. */
  lemma {:induction false} LastCoverFound(passes: seq<Pass>, c: nat)
    ensures LastCover(passes, c).Some? <==> exists k :: 0 <= k < |passes| && Covered(passes[k].spans, c)
  {
    if passes != [] {
      var n := |passes| - 1;
      var init := passes[..n];
      LastCoverFound(init, c);
      if !Covered(passes[n].spans, c) && exists k :: 0 <= k < |passes| && Covered(passes[k].spans, c) {
        var k :| 0 <= k < |passes| && Covered(passes[k].spans, c);
        assert k < n && init[k] == passes[k];
      }
    }
  }

  /** The format LastCover finds is that of the last pass covering c. */
  lemma {:induction false} LastCoverSpec(passes: seq<Pass>, c: nat)
    ensures LastCover(passes, c).Some? ==>
      exists k: nat :: LastCoveringPass(passes, c, k) && LastCover(passes, c).value == passes[k].style
  {
    if passes != [] {
      var n := |passes| - 1;
      var init := passes[..n];
      if Covered(passes[n].spans, c) {
        assert LastCoveringPass(passes, c, n);
      } else {
        LastCoverSpec(init, c);
        if LastCover(init, c).Some? {
          var k: nat :| LastCoveringPass(init, c, k) && LastCover(init, c).value == init[k].style;
          assert LastCoveringPass(passes, c, k) by {
            forall j | k < j < |passes|
              ensures !Covered(passes[j].spans, c)
            {
              if j < n {
                assert init[j] == passes[j];
              }
            }
          }
        }
      }
    }
  }

  /** A character takes the format of the spans' rule exactly when one of
      the spans covers it, and otherwise keeps its format. */
  lemma {:induction false} PaintAllAt(buf: seq<Style>, spans: seq<Span>, s: Style, c: nat)
    requires c < |buf|
    ensures PaintAll(buf, spans, s)[c] == if Covered(spans, c) then s else buf[c]
  {
    if spans != [] {
      var n := |spans| - 1;
      PaintAllAt(buf, spans[..n], s, c);
      assert Covered(spans, c) <==> Covered(spans[..n], c) || spans[n].start <= c < spans[n].end by {
        if Covered(spans, c) && !(spans[n].start <= c < spans[n].end) {
          var k :| 0 <= k < |spans| && spans[k].start <= c < spans[k].end;
          assert spans[..n][k] == spans[k];
        }
        if Covered(spans[..n], c) {
          var k :| 0 <= k < n && spans[..n][k].start <= c < spans[..n][k].end;
          assert spans[..n][k] == spans[k];
        }
      }
    }
  }

  /** Each character ends with the format of the last pass whose spans
      cover it; a character no span covers keeps its prior format. */
  lemma {:induction false} ApplyAt(buf: seq<Style>, passes: seq<Pass>, c: nat)
    requires c < |buf|
    ensures Apply(buf, passes)[c] ==
      match LastCover(passes, c)
      case Some(s) => s
      case None => buf[c]
  {
    if passes != [] {
      var n := |passes| - 1;
      ApplyAt(buf, passes[..n], c);
      PaintAllAt(Apply(buf, passes[..n]), passes[n].spans, passes[n].style, c);
    }
  }

  /** Highlighting a line a second time changes nothing. */
  lemma HighlightIdempotent(rules: seq<Rule>, text: string, buf: seq<Style>)
    ensures Highlight(rules, text, Highlight(rules, text, buf)) == Highlight(rules, text, buf)
  {
    var passes := Passes(rules, text);
    var once := Apply(buf, passes);
    var twice := Apply(once, passes);
    forall c | 0 <= c < |buf|
      ensures twice[c] == once[c]
    {
      ApplyAt(buf, passes, c);
      ApplyAt(once, passes, c);
    }
  }

  /** With the standard rule list: the environment format wins over the
      comment format, which wins over math, then braces, then commands; a
      character no rule matches keeps its format. */
  lemma StandardStyleAt(text: string, buf: seq<Style>, c: nat)
    requires c < |buf|
    ensures Highlight(StandardRules(), text, buf)[c] ==
      if Covered(FindIter(EnvPattern, text), c) then EnvFormat
      else if Covered(FindIter(CommentPattern, text), c) then CommentFormat
      else if Covered(FindIter(MathPattern, text), c) then MathFormat
      else if Covered(FindIter(BracePattern, text), c) then BraceFormat
      else if Covered(FindIter(CommandPattern, text), c) then CommandFormat
      else buf[c]
  {
    var p0 := Pass(FindIter(CommandPattern, text), CommandFormat);
    var p1 := Pass(FindIter(BracePattern, text), BraceFormat);
    var p2 := Pass(FindIter(MathPattern, text), MathFormat);
    var p3 := Pass(FindIter(CommentPattern, text), CommentFormat);
    var p4 := Pass(FindIter(EnvPattern, text), EnvFormat);
    StandardPasses(text);
    ApplyAt(buf, [p0, p1, p2, p3, p4], c);
    LastCoverOfFive(p0, p1, p2, p3, p4, c);
  }

  /** The passes of the standard rule list, one per rule, in rule order. */
  lemma StandardPasses(text: string)
    ensures Passes(StandardRules(), text) == [
      Pass(FindIter(CommandPattern, text), CommandFormat),
      Pass(FindIter(BracePattern, text), BraceFormat),
      Pass(FindIter(MathPattern, text), MathFormat),
      Pass(FindIter(CommentPattern, text), CommentFormat),
      Pass(FindIter(EnvPattern, text), EnvFormat)]
  {
    var rs := StandardRules();
    var ps := Passes(rs, text);
    assert |ps| == 5;
    assert ps[0] == Pass(FindIter(rs[0].pattern, text), rs[0].style);
    assert ps[1] == Pass(FindIter(rs[1].pattern, text), rs[1].style);
    assert ps[2] == Pass(FindIter(rs[2].pattern, text), rs[2].style);
    assert ps[3] == Pass(FindIter(rs[3].pattern, text), rs[3].style);
    assert ps[4] == Pass(FindIter(rs[4].pattern, text), rs[4].style);
  }

  /** LastCover over five passes, unfolded: later passes are looked at first. */
  lemma LastCoverOfFive(p0: Pass, p1: Pass, p2: Pass, p3: Pass, p4: Pass, c: nat)
    ensures LastCover([p0, p1, p2, p3, p4], c) ==
      if Covered(p4.spans, c) then Some(p4.style)
      else if Covered(p3.spans, c) then Some(p3.style)
      else if Covered(p2.spans, c) then Some(p2.style)
      else if Covered(p1.spans, c) then Some(p1.style)
      else if Covered(p0.spans, c) then Some(p0.style)
      else None
  {
    assert [p0, p1, p2, p3, p4][..4] == [p0, p1, p2, p3];
    assert [p0, p1, p2, p3][..3] == [p0, p1, p2];
    assert [p0, p1, p2][..2] == [p0, p1];
    assert [p0, p1][..1] == [p0];
    assert LastCover([p0], c) == if Covered(p0.spans, c) then Some(p0.style) else None by {
      assert [p0][..0] == [];
    }
    assert LastCover([p0, p1], c) == if Covered(p1.spans, c) then Some(p1.style) else LastCover([p0], c);
    assert LastCover([p0, p1, p2], c) == if Covered(p2.spans, c) then Some(p2.style) else LastCover([p0, p1], c);
    assert LastCover([p0, p1, p2, p3], c) == if Covered(p3.spans, c) then Some(p3.style) else LastCover([p0, p1, p2], c);
  }

  /** In a line without newlines, everything from the first percent sign on
      is shown as a comment, except where an environment match overrides it. */
  lemma CommentStyleToEnd(text: string, buf: seq<Style>, i: nat, c: nat)
    requires i <= c < |text| && c < |buf|
    requires text[i] == '%' && '%' !in text[..i] && '\n' !in text
    ensures Highlight(StandardRules(), text, buf)[c] ==
      if Covered(FindIter(EnvPattern, text), c) then EnvFormat else CommentFormat
  {
    StandardStyleAt(text, buf, c);
    CommentRunsToEnd(text, i, 0);
    assert FindIter(CommentPattern, text)[0] == Span(i, |text|);
  }

  /** The syntax highlighter of the editor. `formats` is the format buffer of
      the line being highlighted, which the host sizes to the line and clears
      before each pass. */
  class LatexHighlighter {
    var rules: seq<Rule>
    var formats: array<Style>

    /** Builds the rule list by appending the five rules in order. */
    constructor ()
      ensures rules == StandardRules()
      ensures fresh(formats) && formats.Length == 0
    {
      rules := [];
      formats := new Style[0];
      new;
      rules := rules + [Rule(CommandPattern, CommandFormat)];
      rules := rules + [Rule(BracePattern, BraceFormat)];
      rules := rules + [Rule(MathPattern, MathFormat)];
      rules := rules + [Rule(CommentPattern, CommentFormat)];
      rules := rules + [Rule(EnvPattern, EnvFormat)];
    }

    /** The host's preparation of a line: a cleared buffer of its length. */
    method PrepareBlock(length: nat)
      modifies this
      ensures rules == old(rules)
      ensures fresh(formats) && formats[..] == seq(length, _ => NoFormat)
    {
      formats := new Style[length](_ => NoFormat);
    }

    /** `setFormat`: overwrites the formats of [start, start + count), clipped
        to the buffer. */
    method SetFormat(start: nat, count: nat, format: Style)
      modifies formats
      ensures formats[..] == Paint(old(formats[..]), start, start + count, format)
    {
      if start < formats.Length {
        var end := if start + count < formats.Length then start + count else formats.Length;
        for c := start to end
          invariant forall q :: 0 <= q < formats.Length ==>
            formats[q] == if start <= q < c then format else old(formats[q])
        {
          formats[c] := format;
        }
      }
    }

    /** The inner loop of `highlightBlock`: paints each match of one rule. */
    method PaintMatches(matches: seq<Span>, style: Style)
      requires forall k :: 0 <= k < |matches| ==> matches[k].start <= matches[k].end
      modifies formats
      ensures formats[..] == PaintAll(old(formats[..]), matches, style)
    {
      for j := 0 to |matches|
        invariant formats[..] == PaintAll(old(formats[..]), matches[..j], style)
      {
        var m := matches[j];
        SetFormat(m.start, m.end - m.start, style);
        assert matches[..j + 1][..j] == matches[..j];
      }
      assert matches[..|matches|] == matches;
    }

    /** `highlightBlock`: for each rule in order, paints each of its matches. */
    method HighlightBlock(text: string)
      modifies formats
      ensures formats[..] == Highlight(rules, text, old(formats[..]))
    {
      ghost var passes := Passes(rules, text);
      for i := 0 to |rules|
        invariant formats[..] == Apply(old(formats[..]), passes[..i])
      {
        var rule := rules[i];
        var matches := FindIter(rule.pattern, text);
        assert passes[i] == Pass(matches, rule.style);
        PaintMatches(matches, rule.style);
        assert passes[..i + 1][..i] == passes[..i];
      }
      assert passes[..|rules|] == passes;
    }
  }
}
