/** Whole-line outcomes of the highlighter on lines of the editor's default
    document and on a comment line that also holds inline math. */
module Scenarios {
  import opened Matching
  import opened Highlighting

  /** A cleared format buffer for a line of length n. */
  function Cleared(n: nat): seq<Style> {
    seq(n, _ => NoFormat)
  }

  /** `\section{}` holds no backslash after its first character. */
  lemma SectionBackslashes(q: nat)
    requires 1 <= q < 10
    ensures "\\section{}"[q] != '\\'
  {
    var t := "\\section{}";
    assert t[1..] == "section{}";
    assert t[q] in t[1..];
  }

  /** The command rule finds `\section` in `\section{}`. */
  lemma SectionCommand()
    ensures FindIter(CommandPattern, "\\section{}") == [Span(0, 8)]
  {
    var t := "\\section{}";
    assert MatchAt(CommandPattern, t, 0) == Some(8) by {
      assert t[8] == '{';
      assert forall q :: 1 <= q < 8 ==> IsAsciiLetter(t[q]) by {
        assert t[1..8] == "section";
      }
    }
    forall q | 8 <= q < |t| ensures t[q] !in Leaders(CommandPattern) {
      SectionBackslashes(q);
    }
    NoLeaderNoMatch(CommandPattern, t, 8);
  }

  /** Neither math, comment nor environment rule matches in `\section{}`. */
  lemma SectionOthers()
    ensures FindIter(MathPattern, "\\section{}") == []
    ensures FindIter(CommentPattern, "\\section{}") == []
    ensures FindIter(EnvPattern, "\\section{}") == []
  {
    var t := "\\section{}";
    assert '$' !in t && '%' !in t;
    NoLeaderNoMatch(MathPattern, t, 0);
    NoLeaderNoMatch(CommentPattern, t, 0);
    assert MatchAt(EnvPattern, t, 0) == None by {
      assert t[0..7] == "\\sectio" && t[0..5] == "\\sect";
    }
    forall q | 1 <= q < |t| ensures t[q] !in Leaders(EnvPattern) {
      SectionBackslashes(q);
    }
    NoLeaderNoMatch(EnvPattern, t, 1);
  }

  /** The braces of `\section{}` are its last two characters. */
  lemma SectionBraces(c: nat)
    requires c < 10
    ensures Covered(FindIter(BracePattern, "\\section{}"), c) <==> 8 <= c
  {
    var t := "\\section{}";
    BraceCover(t, 0, c);
    assert t[8] == '{' && t[9] == '}';
    if c < 8 {
      assert t[..8] == "\\section";
      assert t[c] in t[..8];
    }
  }

  /** Which of the other rules cover character c of `\section{}`. */
  lemma SectionCovers(c: nat)
    requires c < 10
    ensures !Covered(FindIter(EnvPattern, "\\section{}"), c)
    ensures !Covered(FindIter(CommentPattern, "\\section{}"), c)
    ensures !Covered(FindIter(MathPattern, "\\section{}"), c)
    ensures Covered(FindIter(CommandPattern, "\\section{}"), c) <==> c < 8
  {
    SectionCommand();
    SectionOthers();
    var cmd := FindIter(CommandPattern, "\\section{}");
    assert cmd == [Span(0, 8)];
    assert c < 8 ==> cmd[0].start <= c < cmd[0].end;
  }

  /** The format of character c of `\section{}` after the pass. */
  lemma SectionStyleAt(c: nat)
    requires c < 10
    ensures Highlight(StandardRules(), "\\section{}", Cleared(10))[c] ==
      if c < 8 then CommandFormat else BraceFormat
  {
    SectionCovers(c);
    SectionBraces(c);
    StandardStyleAt("\\section{}", Cleared(10), c);
  }

  /** `\section{}`: the command and the two braces, and nothing else, are
      highlighted; there is no environment match. */
  lemma SectionLine()
    ensures Highlight(StandardRules(), "\\section{}", Cleared(10)) ==
      seq(10, c => if c < 8 then CommandFormat else BraceFormat)
  {
    forall c | 0 <= c < 10
      ensures Highlight(StandardRules(), "\\section{}", Cleared(10))[c] ==
        if c < 8 then CommandFormat else BraceFormat
    {
      SectionStyleAt(c);
    }
  }

  /** The environment rule matches the whole of `\begin{document}`. */
  lemma BeginDocumentEnv()
    ensures FindIter(EnvPattern, "\\begin{document}") == [Span(0, 16)]
  {
    var t := "\\begin{document}";
    assert MatchAt(EnvPattern, t, 0) == Some(16) by {
      assert t[0..7] == "\\begin{";
      assert t[15] == '}';
      assert forall q :: 8 <= q < 15 ==> t[q] != '}' by {
        assert t[8..15] == "ocument";
      }
    }
    assert FindIter(EnvPattern, t, 16) == [];
  }

  /** `\begin{document}`: the environment format covers the whole line,
      overriding the command and brace formats. */
  lemma BeginDocumentLine(buf: seq<Style>)
    requires |buf| == 16
    ensures Highlight(StandardRules(), "\\begin{document}", buf) == seq(16, _ => EnvFormat)
  {
    var t := "\\begin{document}";
    var got := Highlight(StandardRules(), t, buf);
    forall c | 0 <= c < 16
      ensures got[c] == EnvFormat
    {
      BeginDocumentEnv();
      var env := FindIter(EnvPattern, t);
      assert env[0].start <= c < env[0].end;
      StandardStyleAt(t, buf, c);
    }
  }

  /** In `% comment $x$` the math rule does find `$x$`. */
  lemma CommentLineMath()
    ensures FindIter(MathPattern, "% comment $x$") == [Span(10, 13)]
  {
    var t := "% comment $x$";
    forall q | 0 <= q < 10
      ensures t[q] != '$'
    {
      assert t[..10] == "% comment ";
      assert t[q] in t[..10];
    }
    assert MatchAt(MathPattern, t, 10) == Some(13);
    assert MatchAt(MathPattern, t, 12) == None by {
      assert t[13..] == [];
    }
    FindIterIs(MathPattern, t, 0, [Span(10, 13)]);
  }

  /** `% comment $x$`: the comment rule comes after the math rule, so the
      whole line, the math span included, ends in the comment format. */
  lemma CommentOverridesMath(buf: seq<Style>)
    requires |buf| == 13
    ensures Highlight(StandardRules(), "% comment $x$", buf) == seq(13, _ => CommentFormat)
  {
    var t := "% comment $x$";
    assert '\\' !in t && '\n' !in t;
    NoLeaderNoMatch(EnvPattern, t, 0);
    var got := Highlight(StandardRules(), t, buf);
    forall c | 0 <= c < 13
      ensures got[c] == CommentFormat
    {
      CommentStyleToEnd(t, buf, 0, c);
    }
  }
}
