/**
 * The `stringify` step: the front matter of the Markdown source is scanned
 * for a handful of `key: value` lines, and the rendered body is put into a
 * page whose head carries those values as `<meta>` tags, together with the
 * path prefix, the GitHub blob URL of the document and, for every page but
 * the site index, the documentation template marker.
 */
module Stringify {
  import opened JsStrings
  import opened Hast
  import opened Context
  import Markup

  const Fence: string := "---"

  // ---------------------------------------------------------------------
  // parseFrontMatter
  // ---------------------------------------------------------------------

  /**
   * From just after the first fence and its following character, up to the
   * second fence; the second `substring` argument is an end index computed
   * as if it were a length, with `substring`'s clamping and swapping.
   */
  function ParseFrontMatter(md: string): string {
    var startIndex := IndexOf(md, Fence) + |Fence| + 1;
    var endIndex := IndexOfFrom(md, Fence, startIndex);
    Substring(md, startIndex, endIndex + |Fence| - startIndex)
  }

  /** A fence at the very start is the first one. */
  lemma {:induction false} FenceAtStart(md: string)
    requires StartsWith(md, "---\n")
    ensures IndexOf(md, Fence) == 0
  {
    assert OccursAt(md, Fence, 0) by {
      assert md[..3] == md[..4][..3];
    }
  }

  /**
   * For a document that opens with `---` and a line break and has a later
   * fence at `e`, the front matter is the text from index 4 up to the
   * character before that fence.
   */
  lemma {:induction false} FrontMatterFenced(md: string)
    requires StartsWith(md, "---\n")
    requires IndexOfFrom(md, Fence, 4) >= 5
    ensures ParseFrontMatter(md) == md[4..IndexOfFrom(md, Fence, 4) - 1]
  {
    FenceAtStart(md);
  }

  /** With no closing fence, the result is the opening `---` and its line break. */
  lemma {:induction false} FrontMatterUnclosed(md: string)
    requires StartsWith(md, "---\n")
    requires IndexOfFrom(md, Fence, 4) == -1
    ensures ParseFrontMatter(md) == "---\n"
  {
    FenceAtStart(md);
    assert Substring(md, 4, -2) == md[0..4];
  }

  /** Front matter without a fence inside, fenced as usual, is read back whole. */
  lemma {:induction false} FrontMatterRoundTrip(fm: string, tail: string)
    requires !Includes(fm, Fence)
    ensures ParseFrontMatter("---\n" + fm + "\n---" + tail) == fm
  {
    var md := "---\n" + fm + "\n---" + tail;
    var e := 5 + |fm|;
    assert md[..4] == "---\n";
    assert md[4..4 + |fm|] == fm;
    assert md[4 + |fm|] == '\n';
    assert OccursAt(md, Fence, e) by {
      assert md[e..e + 3] == "---";
    }
    IncludesIff(fm, Fence);
    NoFenceBefore(fm, tail);
    assert IndexOfFrom(md, Fence, 4) == e;
    FrontMatterFenced(md);
  }

  /** Between the opening fence and the line break before the closing one, no fence starts. */
  lemma {:induction false} NoFenceBefore(fm: string, tail: string)
    requires forall k :: !OccursAt(fm, Fence, k)
    ensures var md := "---\n" + fm + "\n---" + tail;
            forall k :: 4 <= k < 5 + |fm| ==> !OccursAt(md, Fence, k)
  {
    var md := "---\n" + fm + "\n---" + tail;
    assert md[4..4 + |fm|] == fm;
    assert md[4 + |fm|] == '\n';
    forall k | 4 <= k < 5 + |fm| ensures !OccursAt(md, Fence, k) {
      if k + 3 <= 4 + |fm| {
        assert fm[k - 4..k - 1] == md[k..k + 3];
        assert !OccursAt(fm, Fence, k - 4);
      } else {
        assert md[k..k + 3][4 + |fm| - k] == '\n';
      }
    }
  }

  // ---------------------------------------------------------------------
  // parseVariable
  // ---------------------------------------------------------------------

  predicate Matches(line: string, keyword: string) {
    StartsWith(Trim(line), keyword)
  }

  /** `lines.find(...)`, from index `i` on: the first line whose trimmed text starts with the keyword. */
  function FindFrom(lines: seq<string>, keyword: string, i: nat): (r: Option<nat>)
    requires i <= |lines|
    ensures r.Some? ==> i <= r.value < |lines| && Matches(lines[r.value], keyword)
    ensures r.Some? ==> forall k :: i <= k < r.value ==> !Matches(lines[k], keyword)
    ensures r.None? ==> forall k :: i <= k < |lines| ==> !Matches(lines[k], keyword)
    decreases |lines| - i
  {
    if i == |lines| then None
    else if Matches(lines[i], keyword) then Some(i)
    else FindFrom(lines, keyword, i + 1)
  }

  function FindLine(lines: seq<string>, keyword: string): Option<nat> {
    FindFrom(lines, keyword, 0)
  }

  /** `lines.indexOf(x)`: the first index holding `x`, or -1. */
  function IndexOfLine(lines: seq<string>, x: string): (r: int)
    ensures -1 <= r < |lines|
    ensures r >= 0 ==> lines[r] == x && x !in lines[..r]
    ensures r == -1 <==> x !in lines
  {
    if lines == [] then -1
    else if lines[0] == x then 0
    else
      var r := IndexOfLine(lines[1..], x);
      if r == -1 then -1
      else
        assert lines[..r + 1] == [lines[0]] + lines[1..][..r];
        r + 1
  }

  /** The first matching line is the one `find` returns. */
  lemma {:induction false} FindLineFirst(lines: seq<string>, keyword: string, i: nat)
    requires i < |lines| && Matches(lines[i], keyword)
    requires forall j :: 0 <= j < i ==> !Matches(lines[j], keyword)
    ensures FindLine(lines, keyword) == Some(i)
  {
    var r := FindLine(lines, keyword);
    assert r.Some?;
    assert !(r.value < i);
  }

  /** The line `find` returned sits at the index `indexOf` gives for it. */
  lemma {:induction false} FoundLineIndex(lines: seq<string>, keyword: string, i: nat)
    requires FindLine(lines, keyword) == Some(i)
    ensures IndexOfLine(lines, lines[i]) == i
  {
    assert lines[i] in lines;
  }

  /**
   * One line through the YAML list pipeline: trimmed, kept only when it
   * starts with `-`, the dash cut off, trimmed again, kept only when not empty.
   */
  function KeywordItem(line: string): Option<string> {
    var t := Trim(line);
    if StartsWith(t, "-") && Trim(t[1..]) != "" then Some(Trim(t[1..])) else None
  }

  /** `.map(trim).filter(startsWith '-').map(substring(1).trim).filter(non-empty)` over the lines. */
  function KeywordItems(lines: seq<string>): (r: seq<string>)
    ensures |r| <= |lines|
  {
    if lines == [] then []
    else (match KeywordItem(lines[0]) case Some(item) => [item] case None => []) + KeywordItems(lines[1..])
  }

  /** Every list item is non-empty, has no white space at either end and comes from a line with a dash. */
  lemma {:induction false} KeywordItemsFacts(lines: seq<string>)
    ensures forall j :: 0 <= j < |KeywordItems(lines)| ==>
      var item := KeywordItems(lines)[j];
      item != "" && !IsJsWhitespace(item[0]) && !IsJsWhitespace(item[|item| - 1])
      && exists k :: 0 <= k < |lines| && KeywordItem(lines[k]) == Some(item)
  {
    if lines != [] {
      KeywordItemsFacts(lines[1..]);
      var r := KeywordItems(lines);
      var head := match KeywordItem(lines[0]) case Some(item) => [item] case None => [];
      assert r == head + KeywordItems(lines[1..]);
      forall j | 0 <= j < |r|
        ensures var item := r[j];
          item != "" && !IsJsWhitespace(item[0]) && !IsJsWhitespace(item[|item| - 1])
          && exists k :: 0 <= k < |lines| && KeywordItem(lines[k]) == Some(item)
      {
        if j < |head| {
          KeywordItemShape(lines, 0, r[j]);
        } else {
          ItemFromTail(lines, r[j], KeywordItems(lines[1..]), j - |head|);
        }
      }
    }
  }

  lemma {:induction false} KeywordItemShape(lines: seq<string>, k: nat, item: string)
    requires k < |lines| && KeywordItem(lines[k]) == Some(item)
    ensures item != "" && !IsJsWhitespace(item[0]) && !IsJsWhitespace(item[|item| - 1])
    ensures exists k :: 0 <= k < |lines| && KeywordItem(lines[k]) == Some(item)
  {
  }

  lemma {:induction false} ItemFromTail(lines: seq<string>, item: string, rest: seq<string>, j: nat)
    requires lines != [] && rest == KeywordItems(lines[1..]) && j < |rest| && item == rest[j]
    requires item != "" && !IsJsWhitespace(item[0]) && !IsJsWhitespace(item[|item| - 1])
    requires exists k :: 0 <= k < |lines[1..]| && KeywordItem(lines[1..][k]) == Some(item)
    ensures item != "" && !IsJsWhitespace(item[0]) && !IsJsWhitespace(item[|item| - 1])
    ensures exists k :: 0 <= k < |lines| && KeywordItem(lines[k]) == Some(item)
  {
    var k :| 0 <= k < |lines[1..]| && KeywordItem(lines[1..][k]) == Some(item);
    assert lines[1..][k] == lines[k + 1];
  }

  /** The value of the first front-matter line that starts with `keyword`, or `""`. */
  function ParseVariable(md: string, keyword: string): string {
    var lines := Split(ParseFrontMatter(md), '\n');
    match FindLine(lines, keyword)
    case None => ""
    case Some(i) =>
      var line := lines[i];
      if line == "" then ""
      else
        var tokens := Split(line, ':');
        if |tokens| != 2 then ""
        else
          var value := Trim(tokens[1]);
          if value == "" && keyword == "keywords:" then
            var startIndex := IndexOfLine(lines, line);
            assert line in lines;
            var items := KeywordItems(lines[startIndex + 1..]);
            if |items| > 0 then Join(items, ", ") else ""
          else value
  }

  /** The front-matter lines `parseVariable` searches. */
  function FrontMatterLines(md: string): seq<string> {
    Split(ParseFrontMatter(md), '\n')
  }

  /** No line starting with the key, after trimming: nothing. */
  lemma {:induction false} ParseVariableMissing(md: string, keyword: string)
    requires forall k :: 0 <= k < |FrontMatterLines(md)| ==> !Matches(FrontMatterLines(md)[k], keyword)
    ensures ParseVariable(md, keyword) == ""
  {
    var lines := FrontMatterLines(md);
    assert FindLine(lines, keyword) == None;
  }

  /** A matching line that does not split into exactly two `:`-separated tokens: nothing. */
  lemma {:induction false} ParseVariableTokens(md: string, keyword: string, i: nat)
    requires FindLine(FrontMatterLines(md), keyword) == Some(i)
    requires |Split(FrontMatterLines(md)[i], ':')| != 2
    ensures ParseVariable(md, keyword) == ""
  {
  }

  /** Otherwise the trimmed text after the `:`, unless that is empty for `keywords:`. */
  lemma {:induction false} ParseVariableValue(md: string, keyword: string, i: nat)
    requires FindLine(FrontMatterLines(md), keyword) == Some(i)
    requires var tokens := Split(FrontMatterLines(md)[i], ':');
             |tokens| == 2 && !(Trim(tokens[1]) == "" && keyword == "keywords:")
    ensures ParseVariable(md, keyword) == Trim(Split(FrontMatterLines(md)[i], ':')[1])
  {
  }

  /** `keywords:` with an empty value: the dash items of the later lines, joined by `, `, or nothing. */
  lemma {:induction false} ParseVariableKeywordList(md: string, i: nat)
    requires FindLine(FrontMatterLines(md), "keywords:") == Some(i)
    requires var tokens := Split(FrontMatterLines(md)[i], ':');
             |tokens| == 2 && Trim(tokens[1]) == ""
    ensures var items := KeywordItems(FrontMatterLines(md)[i + 1..]);
            ParseVariable(md, "keywords:") == if |items| > 0 then Join(items, ", ") else ""
  {
    KeywordLineNotEmpty(FrontMatterLines(md), i);
  }

  /** The `keywords:` line found is not empty: its trimmed text starts with the key. */
  lemma {:induction false} KeywordLineNotEmpty(lines: seq<string>, i: nat)
    requires FindLine(lines, "keywords:") == Some(i)
    ensures i < |lines| && lines[i] != ""
  {
    FoundLineIndex(lines, "keywords:", i);
    assert Matches(lines[i], "keywords:");
    TrimChars(lines[i]);
    assert Trim(lines[i])[0] in lines[i];
  }

  /** A join of line-break-free parts has no line break. */
  lemma {:induction false} JoinNoNewline(parts: seq<string>, sep: string)
    requires '\n' !in sep && forall j :: 0 <= j < |parts| ==> '\n' !in parts[j]
    ensures '\n' !in Join(parts, sep)
  {
    if |parts| > 1 {
      JoinNoNewline(parts[1..], sep);
    }
  }

  /** The list items of line-break-free lines, joined, have no line break. */
  lemma {:induction false} KeywordListOneLine(rest: seq<string>)
    requires forall k :: 0 <= k < |rest| ==> '\n' !in rest[k]
    ensures '\n' !in Join(KeywordItems(rest), ", ")
  {
    var items := KeywordItems(rest);
    KeywordItemsFacts(rest);
    forall j | 0 <= j < |items| ensures '\n' !in items[j] {
      var k :| 0 <= k < |rest| && KeywordItem(rest[k]) == Some(items[j]);
      var t := Trim(rest[k]);
      TrimChars(rest[k]);
      TrimChars(t[1..]);
      assert forall c :: c in t[1..] ==> c in t;
    }
    JoinNoNewline(items, ", ");
  }

  /** The trimmed text after the one `:` of a line has no line break when the line has none. */
  lemma {:induction false} TokenOneLine(line: string)
    requires '\n' !in line && |Split(line, ':')| == 2
    ensures '\n' !in Trim(Split(line, ':')[1])
  {
    var tokens := Split(line, ':');
    JoinSplit(line, ':');
    assert Join(tokens, ":") == tokens[0] + ":" + tokens[1];
    TrimChars(tokens[1]);
  }

  /** A value never spans lines, so it always fits on one line of the page head. */
  lemma {:induction false} ParseVariableOneLine(md: string, keyword: string)
    ensures '\n' !in ParseVariable(md, keyword)
  {
    var lines := FrontMatterLines(md);
    match FindLine(lines, keyword)
    case None =>
    case Some(i) =>
      var line := lines[i];
      if line != "" && |Split(line, ':')| == 2 {
        TokenOneLine(line);
        if Trim(Split(line, ':')[1]) == "" && keyword == "keywords:" {
          FoundLineIndex(lines, keyword, i);
          var rest := lines[i + 1..];
          assert forall k :: 0 <= k < |rest| ==> rest[k] == lines[i + 1 + k];
          KeywordListOneLine(rest);
        }
      }
  }

  /** A `key: value` line is already trimmed and starts with its key. */
  lemma {:induction false} KeyValueTrimmed(name: string, value: string)
    requires value != "" && (name == [] || !IsJsWhitespace(name[0]))
    requires !IsJsWhitespace(value[|value| - 1])
    ensures Trim(name + ": " + value) == name + ": " + value
    ensures Matches(name + ": " + value, name + ":")
  {
    var keyword := name + ":";
    var line := name + ": " + value;
    assert line == keyword + (" " + value);
    assert line[0] == (if name == [] then ':' else name[0]);
    assert line[|line| - 1] == value[|value| - 1];
    TrimTrimmed(line);
    assert line[..|keyword|] == keyword;
  }

  /** A `key: value` line splits at its one `:` into the key and the spaced value. */
  lemma {:induction false} KeyValueSplit(name: string, value: string)
    requires ':' !in name && ':' !in value
    ensures Split(name + ": " + value, ':') == [name, " " + value]
  {
    var after := " " + value;
    assert name + ": " + value == Join([name, after], ":");
    assert ':' !in after;
    SplitJoin([name, after], ':');
  }

  /** The value after the space, already trimmed, is what trimming gives back. */
  lemma {:induction false} KeyValueValue(value: string)
    requires value != "" && !IsJsWhitespace(value[0]) && !IsJsWhitespace(value[|value| - 1])
    ensures Trim(" " + value) == value
  {
    TrimAfterSpace(" ", value);
    TrimTrimmed(value);
  }

  /** Lines joined and fenced as front matter are the lines `parseVariable` searches. */
  lemma {:induction false} FrontMatterLinesOf(lines: seq<string>, tail: string)
    requires |lines| >= 1 && forall j :: 0 <= j < |lines| ==> '\n' !in lines[j]
    requires !Includes(Join(lines, "\n"), Fence)
    ensures FrontMatterLines("---\n" + Join(lines, "\n") + "\n---" + tail) == lines
  {
    FrontMatterRoundTrip(Join(lines, "\n"), tail);
    SplitJoin(lines, '\n');
  }

  /**
   * A front-matter line `key: value`, with no other `:` and the value
   * trimmed, gives back the value when no earlier line starts with the key.
   */
  lemma {:induction false} ParseVariableRoundTrip(lines: seq<string>, tail: string, name: string, value: string, i: nat)
    requires i < |lines| && forall j :: 0 <= j < |lines| ==> '\n' !in lines[j]
    requires !Includes(Join(lines, "\n"), Fence)
    requires lines[i] == name + ": " + value
    requires ':' !in name && ':' !in value && value != ""
    requires name == [] || !IsJsWhitespace(name[0])
    requires !IsJsWhitespace(value[0]) && !IsJsWhitespace(value[|value| - 1])
    requires forall j :: 0 <= j < i ==> !Matches(lines[j], name + ":")
    ensures ParseVariable("---\n" + Join(lines, "\n") + "\n---" + tail, name + ":") == value
  {
    var md := "---\n" + Join(lines, "\n") + "\n---" + tail;
    FrontMatterLinesOf(lines, tail);
    KeyValueTrimmed(name, value);
    KeyValueSplit(name, value);
    KeyValueValue(value);
    FindLineFirst(lines, name + ":", i);
    ParseVariableValue(md, name + ":", i);
  }

  // ---------------------------------------------------------------------
  // wrapHtml
  // ---------------------------------------------------------------------

  /** Everything `wrapHtml` puts into the page head. */
  datatype PageMeta = PageMeta(
    pathprefix: string,
    githubBlobPath: string,
    documentation: bool,
    hideBreadcrumbNav: string,
    hideEditInGitHub: string,
    hideLogIssue: string,
    hideCopyMarkdown: string,
    layout: string,
    title: string,
    description: string,
    keywords: string)

  const HeadIndent: string := "    "

  function MetaTag(name: string, value: string): (r: string)
    ensures r != ""
  {
    "<meta name=\"" + name + "\" content=\"" + value + "\">"
  }

  /** `${value ? `<meta …>` : ''}` */
  function OptionalMeta(name: string, value: string): string {
    if value != "" then MetaTag(name, value) else ""
  }

  function TitleLine(title: string): string {
    "    <title>" + title + "</title>"
  }

  /** The template lines before the meta tags. */
  function HeadOpen(m: PageMeta): seq<string> {
    ["<!DOCTYPE html>", "<html>", "  <head>", TitleLine(m.title)]
  }

  /** The twelve meta-tag lines of the head, each indented; an absent tag leaves the bare indentation. */
  function MetaLines(m: PageMeta): seq<string> {
    [ HeadIndent + OptionalMeta("description", m.description),
      HeadIndent + OptionalMeta("keywords", m.keywords),
      HeadIndent + MetaTag("viewport", "width=device-width, initial-scale=1"),
      HeadIndent + MetaTag("source", "github"),
      HeadIndent + MetaTag("pathprefix", m.pathprefix),
      HeadIndent + MetaTag("githubblobpath", m.githubBlobPath),
      HeadIndent + (if m.documentation then MetaTag("template", "documentation") else ""),
      HeadIndent + OptionalMeta("hidebreadcrumbnav", m.hideBreadcrumbNav),
      HeadIndent + OptionalMeta("hideeditingithub", m.hideEditInGitHub),
      HeadIndent + OptionalMeta("hidelogissue", m.hideLogIssue),
      HeadIndent + OptionalMeta("hidecopymarkdown", m.hideCopyMarkdown),
      HeadIndent + OptionalMeta("layout", m.layout)]
  }

  /** The template lines after the meta tags, up to and including `<main>`. */
  const HeadClose: seq<string> := ["  </head>", "  <body>", "    <header></header>", "    <main>"]

  function HeadLines(m: PageMeta): seq<string> {
    HeadOpen(m) + MetaLines(m) + HeadClose
  }

  /** The rendered body, less a blank first and a blank last line, unindented. */
  function PageBody(content: string): string {
    Join(Markup.KeepLines(Split(content, '\n')), "\n")
  }

  function WrapHtml(content: string, m: PageMeta): string {
    Join(HeadLines(m) + [PageBody(content)] + Markup.PageFoot, "\n")
  }

  predicate MetaOneLine(m: PageMeta) {
    '\n' !in m.pathprefix && '\n' !in m.githubBlobPath && '\n' !in m.hideBreadcrumbNav
    && '\n' !in m.hideEditInGitHub && '\n' !in m.hideLogIssue && '\n' !in m.hideCopyMarkdown
    && '\n' !in m.layout && '\n' !in m.title && '\n' !in m.description && '\n' !in m.keywords
  }

  lemma {:induction false} MetaTagOneLine(name: string, value: string)
    requires '\n' !in name && '\n' !in value
    ensures '\n' !in HeadIndent + MetaTag(name, value)
    ensures '\n' !in HeadIndent + OptionalMeta(name, value)
  {
    var a, b, c := "<meta name=\"", "\" content=\"", "\">";
    assert '\n' !in a && '\n' !in b && '\n' !in c && '\n' !in HeadIndent;
  }

  lemma {:induction false} HeadOpenOneLine(m: PageMeta)
    requires '\n' !in m.title
    ensures Markup.NoNewline(HeadOpen(m))
  {
    var h := HeadOpen(m);
    var open, close := "    <title>", "</title>";
    assert '\n' !in open && '\n' !in close;
    assert '\n' !in h[0] && '\n' !in h[1] && '\n' !in h[2] && '\n' !in h[3];
  }

  /** The tags whose values are fixed have no line break. */
  lemma {:induction false} FixedTagsOneLine()
    ensures '\n' !in HeadIndent + MetaTag("viewport", "width=device-width, initial-scale=1")
    ensures '\n' !in HeadIndent + MetaTag("source", "github")
    ensures '\n' !in HeadIndent + MetaTag("template", "documentation") && '\n' !in HeadIndent + ""
  {
    var v, w := "width=device-width,", " initial-scale=1";
    assert '\n' !in v && '\n' !in w;
    assert v + w == "width=device-width, initial-scale=1";
    MetaTagOneLine("viewport", v + w);
    MetaTagOneLine("source", "github");
    MetaTagOneLine("template", "documentation");
  }

  lemma {:induction false} NamesOneLine()
    ensures '\n' !in "description" && '\n' !in "keywords" && '\n' !in "pathprefix"
    ensures '\n' !in "githubblobpath" && '\n' !in "layout"
  {
  }

  lemma {:induction false} HideNamesOneLine()
    ensures '\n' !in "hidebreadcrumbnav" && '\n' !in "hideeditingithub"
    ensures '\n' !in "hidelogissue" && '\n' !in "hidecopymarkdown"
  {
  }

  lemma {:induction false} MetaLinesOneLine(m: PageMeta)
    requires MetaOneLine(m)
    ensures Markup.NoNewline(MetaLines(m))
  {
    FixedTagsOneLine();
    NamesOneLine();
    HideNamesOneLine();
    MetaTagOneLine("description", m.description);
    MetaTagOneLine("keywords", m.keywords);
    MetaTagOneLine("pathprefix", m.pathprefix);
    MetaTagOneLine("githubblobpath", m.githubBlobPath);
    MetaTagOneLine("hidebreadcrumbnav", m.hideBreadcrumbNav);
    MetaTagOneLine("hideeditingithub", m.hideEditInGitHub);
    MetaTagOneLine("hidelogissue", m.hideLogIssue);
    MetaTagOneLine("hidecopymarkdown", m.hideCopyMarkdown);
    MetaTagOneLine("layout", m.layout);
  }

  lemma {:induction false} HeadCloseOneLine()
    ensures Markup.NoNewline(HeadClose)
  {
    assert '\n' !in HeadClose[0] && '\n' !in HeadClose[1];
    assert '\n' !in HeadClose[2] && '\n' !in HeadClose[3];
  }

  lemma {:induction false} HeadOneLine(m: PageMeta)
    requires MetaOneLine(m)
    ensures Markup.NoNewline(HeadLines(m)) && |HeadLines(m)| == 20
  {
    HeadOpenOneLine(m);
    MetaLinesOneLine(m);
    HeadCloseOneLine();
    Markup.NoNewlineConcat(HeadOpen(m), MetaLines(m));
    Markup.NoNewlineConcat(HeadOpen(m) + MetaLines(m), HeadClose);
  }

  /** The rendered body's kept lines have no line break inside. */
  lemma {:induction false} BodyOneLine(content: string)
    ensures Markup.NoNewline(Markup.DropBlankEnds(Split(content, '\n')))
  {
    var lines := Split(content, '\n');
    var kept := Markup.DropBlankEnds(lines);
    var start := if |lines| >= 1 && IsBlank(lines[0]) then 1 else 0;
    forall k | 0 <= k < |kept| ensures '\n' !in kept[k] {
      assert kept[k] == lines[start + k];
    }
  }

  /**
   * The lines of the page: the head template, the kept lines of the body as
   * they are (one empty line when none is kept), and the closing template.
   */
  lemma {:induction false} PageLines(content: string, m: PageMeta)
    requires MetaOneLine(m)
    ensures var kept := Markup.DropBlankEnds(Split(content, '\n'));
            Split(WrapHtml(content, m), '\n') == HeadLines(m) + (if kept == [] then [""] else kept) + Markup.PageFoot
  {
    var kept := Markup.DropBlankEnds(Split(content, '\n'));
    Markup.KeepLinesDropsBlankEnds(Split(content, '\n'));
    HeadOneLine(m);
    Markup.TemplateNoNewline();
    BodyOneLine(content);
    SplitJoinNested(HeadLines(m), kept, Markup.PageFoot, '\n');
  }

  /** An optional meta line is bare indentation exactly when its value is empty, and the tag otherwise. */
  predicate OptionalLine(line: string, name: string, value: string) {
    (line == HeadIndent <==> value == "") && (value != "" ==> line == HeadIndent + MetaTag(name, value))
  }

  lemma {:induction false} OptionalLineHolds(name: string, value: string)
    ensures OptionalLine(HeadIndent + OptionalMeta(name, value), name, value)
  {
    if value != "" {
      var t := MetaTag(name, value);
      assert |HeadIndent + t| > |HeadIndent|;
    } else {
      assert HeadIndent + "" == HeadIndent;
    }
  }

  /**
   * Each optional meta line of the head holds its tag exactly when the value
   * is non-empty, and the documentation line its marker exactly in
   * documentation mode.
   */
  lemma {:induction false} MetaLinesFacts(m: PageMeta)
    ensures var ls := MetaLines(m);
      |ls| == 12
      && OptionalLine(ls[0], "description", m.description)
      && OptionalLine(ls[1], "keywords", m.keywords)
      && ls[4] == HeadIndent + MetaTag("pathprefix", m.pathprefix)
      && ls[5] == HeadIndent + MetaTag("githubblobpath", m.githubBlobPath)
      && (ls[6] == HeadIndent + MetaTag("template", "documentation") <==> m.documentation)
      && (ls[6] == HeadIndent <==> !m.documentation)
      && OptionalLine(ls[7], "hidebreadcrumbnav", m.hideBreadcrumbNav)
      && OptionalLine(ls[8], "hideeditingithub", m.hideEditInGitHub)
      && OptionalLine(ls[9], "hidelogissue", m.hideLogIssue)
      && OptionalLine(ls[10], "hidecopymarkdown", m.hideCopyMarkdown)
      && OptionalLine(ls[11], "layout", m.layout)
  {
    OptionalLineHolds("description", m.description);
    OptionalLineHolds("keywords", m.keywords);
    OptionalLineHolds("hidebreadcrumbnav", m.hideBreadcrumbNav);
    OptionalLineHolds("hideeditingithub", m.hideEditInGitHub);
    OptionalLineHolds("hidelogissue", m.hideLogIssue);
    OptionalLineHolds("hidecopymarkdown", m.hideCopyMarkdown);
    OptionalLineHolds("layout", m.layout);
    var doc := MetaTag("template", "documentation");
    assert |HeadIndent + doc| > |HeadIndent|;
    assert HeadIndent + "" == HeadIndent;
  }

  /**
   * On the page: the title line always; each optional meta tag exactly when
   * its value is non-empty; the documentation marker exactly in
   * documentation mode; the path prefix and blob URL tags always.
   */
  lemma {:induction false} PageHeadLines(content: string, m: PageMeta)
    requires MetaOneLine(m)
    ensures var lines := Split(WrapHtml(content, m), '\n');
      |lines| >= 25
      && lines[3] == TitleLine(m.title)
      && OptionalLine(lines[4], "description", m.description)
      && OptionalLine(lines[5], "keywords", m.keywords)
      && lines[8] == HeadIndent + MetaTag("pathprefix", m.pathprefix)
      && lines[9] == HeadIndent + MetaTag("githubblobpath", m.githubBlobPath)
      && (lines[10] == HeadIndent + MetaTag("template", "documentation") <==> m.documentation)
      && (lines[10] == HeadIndent <==> !m.documentation)
      && OptionalLine(lines[11], "hidebreadcrumbnav", m.hideBreadcrumbNav)
      && OptionalLine(lines[12], "hideeditingithub", m.hideEditInGitHub)
      && OptionalLine(lines[13], "hidelogissue", m.hideLogIssue)
      && OptionalLine(lines[14], "hidecopymarkdown", m.hideCopyMarkdown)
      && OptionalLine(lines[15], "layout", m.layout)
  {
    var lines := Split(WrapHtml(content, m), '\n');
    PageLines(content, m);
    HeadOneLine(m);
    var ls := MetaLines(m);
    MetaLinesFacts(m);
    assert lines[..20] == HeadOpen(m) + ls + HeadClose;
    forall k | 0 <= k < 12 ensures lines[4 + k] == ls[k] {
      assert lines[4 + k] == lines[..20][4 + k];
    }
    assert lines[3] == lines[..20][3];
  }

  /** The page body holds the rendered lines less a blank first and a blank last one, in order. */
  lemma {:induction false} PageBodyLines(content: string, m: PageMeta)
    requires MetaOneLine(m)
    ensures var kept := Markup.DropBlankEnds(Split(content, '\n'));
            var lines := Split(WrapHtml(content, m), '\n');
            kept != [] ==> |lines| == 24 + |kept| && lines[20..20 + |kept|] == kept
  {
    PageLines(content, m);
    HeadOneLine(m);
  }

  // ---------------------------------------------------------------------
  // The metadata of stringify
  // ---------------------------------------------------------------------

  const IndexPath: string := "/src/pages/index.md"

  function GithubBlobPath(site: Site): string {
    "https://github.com/" + site.owner + "/" + site.repo + "/blob/" + site.branch + site.path
  }

  function PageMetaOf(md: string, site: Site): PageMeta {
    PageMeta(
      site.pathprefix,
      GithubBlobPath(site),
      site.path != IndexPath,
      ParseVariable(md, "hideBreadcrumbNav:"),
      ParseVariable(md, "hideEditInGitHub:"),
      ParseVariable(md, "hideLogIssue:"),
      ParseVariable(md, "hideCopyMarkdown:"),
      ParseVariable(md, "layout:"),
      ParseVariable(md, "title:"),
      ParseVariable(md, "description:"),
      ParseVariable(md, "keywords:"))
  }

  predicate SiteOneLine(site: Site) {
    '\n' !in site.pathprefix && '\n' !in site.owner && '\n' !in site.repo && '\n' !in site.branch && '\n' !in site.path
  }

  lemma {:induction false} PageMetaOneLine(md: string, site: Site)
    requires SiteOneLine(site)
    ensures MetaOneLine(PageMetaOf(md, site))
  {
    var a, b := "https://github.com/", "/blob/";
    assert '\n' !in a && '\n' !in b;
    ParseVariableOneLine(md, "hideBreadcrumbNav:");
    ParseVariableOneLine(md, "hideEditInGitHub:");
    ParseVariableOneLine(md, "hideLogIssue:");
    ParseVariableOneLine(md, "hideCopyMarkdown:");
    ParseVariableOneLine(md, "layout:");
    ParseVariableOneLine(md, "title:");
    ParseVariableOneLine(md, "description:");
    ParseVariableOneLine(md, "keywords:");
  }

  /**
   * The page of a document: the documentation marker exactly when the
   * document is not the site index, and the blob URL of the document at its
   * branch.
   */
  lemma {:induction false} DocumentPage(content: string, md: string, site: Site)
    requires SiteOneLine(site)
    ensures var lines := Split(WrapHtml(content, PageMetaOf(md, site)), '\n');
      |lines| >= 24
      && (lines[10] == HeadIndent + MetaTag("template", "documentation") <==> site.path != "/src/pages/index.md")
      && lines[9] == HeadIndent + MetaTag("githubblobpath",
           "https://github.com/" + site.owner + "/" + site.repo + "/blob/" + site.branch + site.path)
  {
    PageMetaOneLine(md, site);
    PageHeadLines(content, PageMetaOf(md, site));
  }

  /**
   * The step: the formatted tree (`formatted`, the tree after `rehype-format`)
   * and its HTML (`rendered`) come from library code; the page is assembled here.
   */
  method Stringify(content: Content, formatted: HNode, rendered: string)
    modifies content
    ensures content.hast == formatted
    ensures content.html == WrapHtml(rendered, PageMetaOf(content.md, content.site))
    ensures content.mdast == old(content.mdast)
  {
    content.hast := formatted;
    content.html := WrapHtml(rendered, PageMetaOf(content.md, content.site));
  }
}
