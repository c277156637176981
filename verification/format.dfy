/**
 * Text formatting for model output (`formatContent`), the bracket-unescaping
 * prelude of `formatCitation`, and the value rule of the theme toggle.
 */
module Format {
  import opened Wrappers
  import opened Strings

  const NoContent := "<em>No content</em>"

  /** Length of the leading run of characters other than `*`. */
  function NonStarRun(s: string): (n: nat)
    ensures n <= |s|
    ensures forall k :: 0 <= k < n ==> s[k] != '*'
    ensures n < |s| ==> s[n] == '*'
  {
    if s == [] || s[0] == '*' then 0 else 1 + NonStarRun(s[1..])
  }

  /**
   * The global replacement of a `**`-delimited run of one or more characters other
   * than `*` by `<strong>` around that run. At each position the
   * pattern can match in at most one way, since the run between the markers holds
   * no `*`; when it does not match, the scan moves on by one character.
   */
  function Bold(s: string): string
    decreases |s|
  {
    if |s| < 2 then s
    else if s[0] == '*' && s[1] == '*' then
      var n := NonStarRun(s[2..]);
      if n > 0 && 4 + n <= |s| && s[3 + n] == '*' then
        "<strong>" + s[2..2 + n] + "</strong>" + Bold(s[4 + n..])
      else [s[0]] + Bold(s[1..])
    else [s[0]] + Bold(s[1..])
  }

  /** Text without a doubled `*` has no bold span and is left as it is. */
  lemma {:induction false} BoldAbsent(s: string)
    requires !Includes(s, "**")
    ensures Bold(s) == s
    decreases |s|
  {
    if |s| >= 2 {
      assert !("**" <= s);
      BoldAbsent(s[1..]);
    }
  }

  /** A marked span becomes strong emphasis around exactly the text between the markers. */
  lemma BoldSpan(a: string, rest: string)
    requires |a| > 0 && '*' !in a
    ensures Bold("**" + a + "**" + rest) == "<strong>" + a + "</strong>" + Bold(rest)
  {
    var closed := "**" + rest;
    var inner := a + closed;
    var s := "**" + inner;
    Assoc("**", a, closed);
    Assoc("**" + a, "**", rest);
    assert s[2..] == inner;
    NonStarRunStops(a, closed);
    assert s[2..2 + |a|] == inner[..|a|] == a;
    assert s[3 + |a|] == closed[1] == '*';
    assert s[4 + |a|..] == closed[2..] == rest;
  }

  /** Text before a span, if it has no `*`, passes the bold pass unchanged. */
  lemma {:induction false} BoldSkip(p: string, t: string)
    requires '*' !in p
    ensures Bold(p + t) == p + Bold(t)
    decreases |p|
  {
    if p == [] {
      assert p + t == t;
    } else if |p + t| < 2 {
      assert t == [] && p + t == p;
    } else {
      var s := p + t;
      assert s[0] == p[0] && s[1..] == p[1..] + t;
      BoldSkip(p[1..], t);
      Assoc([p[0]], p[1..], Bold(t));
      assert [p[0]] + p[1..] == p;
    }
  }

  /** The run of non-`*` characters ends where the first `*` is. */
  lemma {:induction false} NonStarRunStops(a: string, t: string)
    requires '*' !in a && |t| > 0 && t[0] == '*'
    ensures NonStarRun(a + t) == |a|
  {
    if a == [] {
      assert a + t == t;
    } else {
      assert (a + t)[0] == a[0] && (a + t)[1..] == a[1..] + t;
      NonStarRunStops(a[1..], t);
    }
  }

  /**
   * `formatContent(text)`: bold spans first, then a blank line becomes a paragraph
   * break, then a single newline becomes a line break, and the whole is wrapped in
   * one paragraph.
   */
  function FormatContent(text: string): (r: string)
    ensures text == "" ==> r == NoContent
    ensures text != "" ==> |r| >= 7 && r[..3] == "<p>" && r[|r| - 4..] == "</p>"
    ensures '\n' !in r
  {
    if text == "" then NoContent
    else
      var paragraphs := ReplaceAll(Bold(text), "\n\n", "</p><p>");
      var lines := ReplaceAll(paragraphs, "\n", "<br>");
      ReplaceAllRemoves(paragraphs, '\n', "<br>");
      "<p>" + lines + "</p>"
  }

  /** Text with no `*` and no newline is only wrapped in a paragraph. */
  lemma FormatContentPlain(text: string)
    requires text != "" && '*' !in text && '\n' !in text
    ensures FormatContent(text) == "<p>" + text + "</p>"
  {
    if Includes(text, "**") { IncludesHead(text, "**"); }
    BoldAbsent(text);
    ReplaceAllAbsentHead(text, "\n\n", "</p><p>");
    ReplaceAllAbsentHead(text, "\n", "<br>");
  }

  lemma BoldBeforeBlankLine(a: string, b: string)
    requires |a| > 0 && '*' !in a && '*' !in b
    ensures Bold("**" + a + "**" + "\n\n" + b) == "<strong>" + a + "</strong>" + "\n\n" + b
  {
    var tail := "\n\n" + b;
    Assoc("**" + a + "**", "\n\n", b);
    BoldSpan(a, tail);
    StarFreeUnbolded(tail);
    Assoc("<strong>" + a + "</strong>", "\n\n", b);
  }

  /** Text without `*` has no bold span. */
  lemma StarFreeUnbolded(t: string)
    requires '*' !in t
    ensures Bold(t) == t
  {
    if Includes(t, "**") { IncludesHead(t, "**"); }
    BoldAbsent(t);
  }

  lemma BlankLineBetween(a: string, b: string)
    requires '\n' !in a && '\n' !in b
    ensures ReplaceAll(a + "\n\n" + b, "\n\n", "</p><p>") == a + "</p><p>" + b
  {
    var tail := "\n\n" + b;
    assert a + "\n\n" + b == a + tail;
    ReplaceAllSkip(a, tail, "\n\n", "</p><p>");
    assert tail[..2] == "\n\n" && tail[2..] == b;
    ReplaceAllAbsentHead(b, "\n\n", "</p><p>");
  }

  /** Markup wrapped around newline-free text holds no newline. */
  lemma WrappedHasNoNewline(open: string, a: string, close: string)
    requires '\n' !in open && '\n' !in a && '\n' !in close
    ensures '\n' !in open + a + close
  {
  }

  /**
   * A bold span, a blank line, then plain text: the span becomes strong emphasis
   * and the blank line a paragraph break inside the one outer paragraph.
   */
  lemma FormatContentBoldParagraphs(a: string, b: string)
    requires |a| > 0 && '*' !in a && '\n' !in a
    requires '*' !in b && '\n' !in b
    ensures var strong := "<strong>" + a + "</strong>";
            FormatContent("**" + a + "**" + "\n\n" + b) == "<p>" + (strong + "</p><p>" + b) + "</p>"
  {
    var strong := "<strong>" + a + "</strong>";
    var joined := strong + "</p><p>" + b;
    var text := "**" + a + "**" + "\n\n" + b;
    BoldBeforeBlankLine(a, b);
    WrappedHasNoNewline("<strong>", a, "</strong>");
    BlankLineBetween(strong, b);
    WrappedHasNoNewline(strong, "</p><p>", b);
    ReplaceAllAbsentHead(joined, "\n", "<br>");
    FormatContentWraps(text, joined);
  }

  /** Non-empty text is formatted by the three substitutions and wrapped once. */
  lemma FormatContentWraps(text: string, body: string)
    requires text != ""
    requires ReplaceAll(ReplaceAll(Bold(text), "\n\n", "</p><p>"), "\n", "<br>") == body
    ensures FormatContent(text) == "<p>" + body + "</p>"
  {
  }

  /**
   * The first steps of `formatCitation`: an empty citation gives the empty string;
   * otherwise every `\[` becomes `[` and then every `\]` becomes `]`.
   */
  function UnescapeCitation(citation: string): (r: string)
    ensures citation == "" ==> r == ""
    ensures |r| <= |citation|
  {
    if citation == "" then ""
    else
      var unbracketed := ReplaceAll(citation, "\\[", "[");
      ReplaceAllShrinks(citation, "\\[", "[");
      ReplaceAllShrinks(unbracketed, "\\]", "]");
      ReplaceAll(unbracketed, "\\]", "]")
  }

  /** A citation without a backslash passes the unescaping steps unchanged. */
  lemma UnescapeCitationPlain(citation: string)
    requires '\\' !in citation
    ensures UnescapeCitation(citation) == citation
  {
    ReplaceAllAbsentHead(citation, "\\[", "[");
    ReplaceAllAbsentHead(citation, "\\]", "]");
  }

  /** Each escaped bracket loses its backslash: `a\[b\]c` becomes `a[b]c`. */
  lemma UnescapeCitationBrackets(a: string, b: string, c: string)
    requires '\\' !in a && '\\' !in b && '\\' !in c
    ensures UnescapeCitation(a + "\\[" + b + "\\]" + c) == a + "[" + b + "]" + c
  {
    ClosingSurvivesOpening(c);
    TwoPasses(a, b, c, "\\[", "[", "\\]", "]");
  }

  /**
   * Two replacement passes over `a open b close c`, where the first pattern's first
   * character occurs in neither `a` nor `b`, the second's in none of `a`, `rOpen`,
   * `b` and `c`, and the first pass keeps `close c`: each marker is replaced once.
   */
  lemma TwoPasses(a: string, b: string, c: string, open: string, rOpen: string, close: string, rClose: string)
    requires |open| > 0 && |close| > 0
    requires open[0] !in a && open[0] !in b
    requires close[0] !in a && close[0] !in rOpen && close[0] !in b && close[0] !in c
    requires ReplaceAll(close + c, open, rOpen) == close + c
    ensures ReplaceAll(ReplaceAll(a + open + b + close + c, open, rOpen), close, rClose)
         == a + rOpen + b + rClose + c
  {
    FirstPass(a, b, close + c, open, rOpen);
    Regroup(a, open, b, close, c);
    Regroup(a, rOpen, b, close, c);
    var pre := a + rOpen + b;
    assert close[0] !in pre;
    ReplaceAllAbsentHead(c, close, rClose);
    ReplaceOnce(pre, close, rClose, c);
  }

  /** The first pass replaces the one marker it meets before text it keeps. */
  lemma FirstPass(a: string, b: string, tail: string, pat: string, rep: string)
    requires |pat| > 0 && pat[0] !in a && pat[0] !in b
    requires ReplaceAll(tail, pat, rep) == tail
    ensures ReplaceAll(a + pat + (b + tail), pat, rep) == a + rep + (b + tail)
  {
    ReplaceAllSkip(b, tail, pat, rep);
    ReplaceOnce(a, pat, rep, b + tail);
  }

  /** Five pieces concatenated, grouped two ways. */
  lemma Regroup(a: string, b: string, c: string, d: string, e: string)
    ensures a + b + (c + (d + e)) == a + b + c + d + e
  {
  }

  /** The pattern after a prefix without its first character, then text the pass keeps. */
  lemma ReplaceOnce(a: string, pat: string, rep: string, t: string)
    requires |pat| > 0 && pat[0] !in a && ReplaceAll(t, pat, rep) == t
    ensures ReplaceAll(a + pat + t, pat, rep) == a + rep + t
  {
    ReplaceAllHead(pat, t, rep);
    ReplaceAllSkip(a, pat + t, pat, rep);
    assert a + pat + t == a + (pat + t);
    assert a + (rep + t) == a + rep + t;
  }

  /** An escaped closing bracket is not an escaped opening one, so the `\[` pass keeps it. */
  lemma ClosingSurvivesOpening(c: string)
    requires '\\' !in c
    ensures ReplaceAll("\\]" + c, "\\[", "[") == "\\]" + c
  {
    var t := "\\]" + c;
    ReplaceAllAbsentHead(t[1..], "\\[", "[");
    assert t[..2] != "\\[" by { assert t[..2][1] == ']'; }
    assert [t[0]] + t[1..] == t;
  }

  /** A prefix without the pattern's first character is copied through untouched. */
  lemma {:induction false} ReplaceAllSkip(a: string, t: string, pat: string, rep: string)
    requires 0 < |pat| && pat[0] !in a
    ensures ReplaceAll(a + t, pat, rep) == a + ReplaceAll(t, pat, rep)
    decreases |a|
  {
    if a != [] {
      var s := a + t;
      assert s[0] == a[0] && s[1..] == a[1..] + t;
      ReplaceAllSkip(a[1..], t, pat, rep);
      if |s| >= |pat| {
        assert s[..|pat|][0] == a[0] != pat[0];
        assert ReplaceAll(s, pat, rep) == [a[0]] + ReplaceAll(a[1..] + t, pat, rep);
        assert [a[0]] + (a[1..] + ReplaceAll(t, pat, rep)) == a + ReplaceAll(t, pat, rep);
      } else {
        assert ReplaceAll(s, pat, rep) == s;
        assert ReplaceAll(t, pat, rep) == t;
      }
    } else {
      assert a + t == t;
    }
  }

  /** The theme `toggleTheme` switches to, given the current `data-theme` attribute. */
  function NextTheme(current: Option<string>): (r: string)
    ensures r == "light" || r == "dark"
    ensures r == "light" <==> current == Some("dark")
  {
    if current == Some("dark") then "light" else "dark"
  }
}
