/**
 * The repository's own part of the Markdown-to-hast conversion: the classes
 * a fenced code block's `pre > code` carries, derived from its info string,
 * and the shapes the `code` and `section` handlers build. The conversion of
 * every other node kind is the library's and is not part of this model.
 */
module ToHast {
  import opened JsStrings
  import opened Mdast
  import opened Hast

  // ---------------------------------------------------------------------
  // Regular expressions the derivation uses
  // ---------------------------------------------------------------------

  /** The characters JavaScript's `.` does not match. */
  predicate IsLineTerminator(c: char) {
    c == '\n' || c == '\r' || c == '\U{2028}' || c == '\U{2029}'
  }

  /** The index of the first `{` of `s`, or `|s|` when there is none. */
  function BraceIndex(s: string): (i: nat)
    ensures i <= |s| && '{' !in s[..i] && (i < |s| ==> s[i] == '{')
  {
    if s == [] then 0
    else if s[0] == '{' then 0
    else
      var i := 1 + BraceIndex(s[1..]);
      assert s[..i] == [s[0]] + s[1..][..i - 1];
      i
  }

  /**
   * `lang.match(/^([^{]*)(.*)$/)`: the greedy `[^{]*` takes everything before
   * the first `{`, and `(.*)$` must then reach the end without crossing a
   * line terminator; when it cannot, there is no match.
   */
  function LangMatch(lang: string): (m: Option<(string, string)>)
    ensures m.Some? ==> m.value.0 + m.value.1 == lang && '{' !in m.value.0
    ensures m.Some? ==> forall k :: 0 <= k < |m.value.1| ==> !IsLineTerminator(m.value.1[k])
  {
    var i := BraceIndex(lang);
    if exists k :: i <= k < |lang| && IsLineTerminator(lang[k]) then None
    else
      assert lang[..i] + lang[i..] == lang;
      Some((lang[..i], lang[i..]))
  }

  /** `.replace(/[{}]/g, '')` */
  function RemoveBraces(s: string): (r: string)
    ensures '{' !in r && '}' !in r
  {
    if s == [] then []
    else (if s[0] == '{' || s[0] == '}' then [] else [s[0]]) + RemoveBraces(s[1..])
  }

  /** `s.split(c)` for every white-space character `c` at once: one piece more than there are such characters. */
  function SplitWhitespace(s: string): (r: seq<string>)
    ensures |r| >= 1
  {
    if s == [] then [""]
    else if IsJsWhitespace(s[0]) then [""] + SplitWhitespace(s[1..])
    else var p := SplitWhitespace(s[1..]); [[s[0]] + p[0]] + p[1..]
  }

  function NonEmptyStrings(parts: seq<string>): (r: seq<string>)
    ensures forall j :: 0 <= j < |r| ==> r[j] != "" && r[j] in parts
  {
    if parts == [] then []
    else (if parts[0] == "" then [] else [parts[0]]) + NonEmptyStrings(parts[1..])
  }

  /**
   * `s.split(/\s+/).filter(Boolean)`: splitting at runs of white space and
   * dropping empty pieces leaves the same pieces as splitting at every
   * white-space character and dropping the empty ones.
   */
  function Words(s: string): seq<string> {
    NonEmptyStrings(SplitWhitespace(s))
  }

  function RemoveWhitespace(s: string): string {
    if s == [] then []
    else (if IsJsWhitespace(s[0]) then [] else [s[0]]) + RemoveWhitespace(s[1..])
  }

  function Concat(parts: seq<string>): string {
    if parts == [] then [] else parts[0] + Concat(parts[1..])
  }

  // ---------------------------------------------------------------------
  // What the words are
  // ---------------------------------------------------------------------

  /** Every piece is white-space free and made of characters of `s`. */
  lemma {:induction false} SplitWhitespacePieces(s: string)
    ensures forall j :: 0 <= j < |SplitWhitespace(s)| ==>
              forall c :: c in SplitWhitespace(s)[j] ==> c in s && !IsJsWhitespace(c)
  {
    if s != [] {
      SplitWhitespacePieces(s[1..]);
      var p := SplitWhitespace(s[1..]);
      var r := SplitWhitespace(s);
      forall j | 0 <= j < |r| ensures forall c :: c in r[j] ==> c in s && !IsJsWhitespace(c) {
        if IsJsWhitespace(s[0]) {
          if j > 0 {
            assert r[j] == p[j - 1];
          }
        } else if j > 0 {
          assert r[j] == p[j];
        } else {
          assert r[0] == [s[0]] + p[0];
        }
      }
    }
  }

  /** The pieces, put back together, are the text without its white space. */
  lemma {:induction false} SplitWhitespaceConcat(s: string)
    ensures Concat(SplitWhitespace(s)) == RemoveWhitespace(s)
  {
    if s != [] {
      SplitWhitespaceConcat(s[1..]);
      var p := SplitWhitespace(s[1..]);
      if IsJsWhitespace(s[0]) {
        assert ([""] + p)[1..] == p;
      } else {
        var q := [[s[0]] + p[0]] + p[1..];
        assert q[1..] == p[1..];
        assert Concat(p) == p[0] + Concat(p[1..]);
      }
    }
  }

  lemma {:induction false} NonEmptyConcat(parts: seq<string>)
    ensures Concat(NonEmptyStrings(parts)) == Concat(parts)
  {
    if parts != [] {
      NonEmptyConcat(parts[1..]);
      var rest := NonEmptyStrings(parts[1..]);
      if parts[0] != "" {
        assert NonEmptyStrings(parts) == [parts[0]] + rest;
        assert ([parts[0]] + rest)[1..] == rest;
      } else {
        assert NonEmptyStrings(parts) == rest;
        assert Concat(parts) == "" + Concat(parts[1..]);
      }
    }
  }

  /**
   * The words of a text are non-empty, hold no white space and only
   * characters of the text, and together spell the text without its white space.
   */
  lemma {:induction false} WordsFacts(s: string)
    ensures forall j :: 0 <= j < |Words(s)| ==> Words(s)[j] != ""
    ensures forall j :: 0 <= j < |Words(s)| ==>
              forall c :: c in Words(s)[j] ==> c in s && !IsJsWhitespace(c)
    ensures Concat(Words(s)) == RemoveWhitespace(s)
  {
    SplitWhitespacePieces(s);
    SplitWhitespaceConcat(s);
    NonEmptyConcat(SplitWhitespace(s));
  }

  // ---------------------------------------------------------------------
  // getCodeClasses
  // ---------------------------------------------------------------------

  /**
   * `const [, language, extra] = lang?.match(…) || []`, with the `|| ''`
   * fallbacks applied: both groups are empty when `lang` is null or does not match.
   */
  function Groups(lang: Option<string>): (g: (string, string))
    ensures lang.Some? && LangMatch(lang.value).Some? ==> g == LangMatch(lang.value).value
    ensures lang.None? || LangMatch(lang.value).None? ==> g == ("", "")
  {
    if lang.Some? && LangMatch(lang.value).Some? then LangMatch(lang.value).value else ("", "")
  }

  function LanguageOf(lang: Option<string>): string {
    Groups(lang).0
  }

  /** `meta || ''` */
  function MetaText(meta: Option<string>): string {
    if meta.Some? then meta.value else ""
  }

  /** `fullMeta`: the `extra` group and the meta string, without braces, trimmed. */
  function FullMeta(extra: string, meta: Option<string>): string {
    Trim(RemoveBraces(extra + " " + MetaText(meta)))
  }

  function GetCodeClasses(lang: Option<string>, meta: Option<string>): (r: seq<string>)
    ensures LanguageOf(lang) != "" ==> |r| >= 1 && r[0] == "language-" + LanguageOf(lang)
  {
    var (language, extra) := Groups(lang);
    (if language != "" then ["language-" + language] else []) + Words(FullMeta(extra, meta))
  }

  /** The entries after the language class: the words of the brace-free meta text. */
  lemma {:induction false} CodeClassesWords(lang: Option<string>, meta: Option<string>)
    ensures var r := GetCodeClasses(lang, meta);
            var w := if LanguageOf(lang) != "" then r[1..] else r;
            w == Words(FullMeta(Groups(lang).1, meta))
            && forall j :: 0 <= j < |w| ==> w[j] != "" && forall c :: c in w[j] ==> !IsJsWhitespace(c) && c != '{' && c != '}'
  {
    var m := FullMeta(Groups(lang).1, meta);
    TrimChars(RemoveBraces(Groups(lang).1 + " " + MetaText(meta)));
    WordsFacts(m);
  }

  /** The language class is the text of `lang` before its first `{`, and never holds a `{`. */
  lemma {:induction false} LanguageFacts(lang: string)
    ensures LanguageOf(Some(lang)) == "" || LanguageOf(Some(lang)) == lang[..BraceIndex(lang)]
    ensures '{' !in LanguageOf(Some(lang))
    ensures (forall k :: BraceIndex(lang) <= k < |lang| ==> !IsLineTerminator(lang[k])) ==>
              LanguageOf(Some(lang)) == lang[..BraceIndex(lang)]
  {
  }

  /** Without a language the classes are the words of the meta text alone. */
  lemma {:induction false} CodeClassesNoLang(meta: Option<string>)
    ensures GetCodeClasses(None, meta) == Words(Trim(RemoveBraces(" " + MetaText(meta))))
  {
    assert "" + " " + MetaText(meta) == " " + MetaText(meta);
  }

  /** Neither a language nor a meta string: no class at all. */
  lemma {:induction false} CodeClassesNone()
    ensures GetCodeClasses(None, None) == []
  {
    var s := RemoveBraces(" ");
    assert s == " ";
    assert IsJsWhitespace(' ');
    assert TrimStart(" ") == TrimStart("");
    assert Trim(" ") == "";
    assert SplitWhitespace("") == [""];
  }

  lemma {:induction false} RemoveBracesAppend(a: string, b: string)
    ensures RemoveBraces(a + b) == RemoveBraces(a) + RemoveBraces(b)
  {
    if a != [] {
      assert (a + b)[0] == a[0] && (a + b)[1..] == a[1..] + b;
      RemoveBracesAppend(a[1..], b);
    } else {
      assert a + b == b;
    }
  }

  lemma {:induction false} RemoveBracesPlain(s: string)
    requires '{' !in s && '}' !in s
    ensures RemoveBraces(s) == s
  {
    if s != [] {
      assert s[0] in s;
      assert '{' !in s[1..] && '}' !in s[1..];
      RemoveBracesPlain(s[1..]);
    }
  }

  lemma {:induction false} SplitWhitespacePlain(s: string)
    requires forall k :: 0 <= k < |s| ==> !IsJsWhitespace(s[k])
    ensures SplitWhitespace(s) == [s]
  {
    if s != [] {
      SplitWhitespacePlain(s[1..]);
      assert [s[0]] + s[1..] == s;
    }
  }

  /** Cutting at one white-space character: the pieces of the left part, then those of the right part. */
  lemma {:induction false} SplitWhitespaceAt(a: string, c: char, b: string)
    requires IsJsWhitespace(c)
    ensures SplitWhitespace(a + [c] + b) == SplitWhitespace(a) + SplitWhitespace(b)
  {
    var s := a + [c] + b;
    if a == [] {
      assert s[0] == c && s[1..] == b;
    } else {
      assert s[0] == a[0] && s[1..] == a[1..] + [c] + b;
      SplitWhitespaceAt(a[1..], c, b);
      var p := SplitWhitespace(a[1..]);
      if !IsJsWhitespace(a[0]) {
        var q := p + SplitWhitespace(b);
        assert q[0] == p[0] && q[1..] == p[1..] + SplitWhitespace(b);
      }
    }
  }

  /** A word: non-empty, without white space and without braces. */
  predicate IsWord(w: string) {
    w != "" && forall k :: 0 <= k < |w| ==> !IsJsWhitespace(w[k]) && w[k] != '{' && w[k] != '}'
  }

  /** Words joined by single spaces split back into the same words. */
  lemma {:induction false} SplitWhitespaceJoin(ws: seq<string>)
    requires |ws| >= 1 && forall j :: 0 <= j < |ws| ==> IsWord(ws[j])
    ensures SplitWhitespace(Join(ws, " ")) == ws
  {
    SplitWhitespacePlain(ws[0]);
    if |ws| > 1 {
      SplitWhitespaceJoin(ws[1..]);
      assert Join(ws, " ") == ws[0] + [' '] + Join(ws[1..], " ");
      SplitWhitespaceAt(ws[0], ' ', Join(ws[1..], " "));
      assert [ws[0]] + ws[1..] == ws;
    }
  }

  lemma {:induction false} NonEmptyStringsAll(ws: seq<string>)
    requires forall j :: 0 <= j < |ws| ==> ws[j] != ""
    ensures NonEmptyStrings(ws) == ws
  {
    if ws != [] {
      NonEmptyStringsAll(ws[1..]);
      assert [ws[0]] + ws[1..] == ws;
    }
  }

  /** `Words` undoes joining words with single spaces. */
  lemma {:induction false} WordsJoin(ws: seq<string>)
    requires forall j :: 0 <= j < |ws| ==> IsWord(ws[j])
    ensures Words(Join(ws, " ")) == ws
  {
    if ws == [] {
      assert SplitWhitespace("") == [""];
    } else {
      SplitWhitespaceJoin(ws);
      NonEmptyStringsAll(ws);
    }
  }

  /** Every character of a join is a separator character or a character of a part. */
  lemma {:induction false} JoinChars(ws: seq<string>, sep: string, c: char)
    requires c in Join(ws, sep)
    ensures c in sep || exists j :: 0 <= j < |ws| && c in ws[j]
  {
    if |ws| > 1 {
      var rest := Join(ws[1..], sep);
      assert Join(ws, sep) == ws[0] + sep + rest;
      if c !in ws[0] && c !in sep {
        assert c in rest;
        JoinChars(ws[1..], sep, c);
        var j :| 0 <= j < |ws[1..]| && c in ws[1..][j];
        assert c in ws[j + 1];
      }
    }
  }

  /** A join of words by spaces holds no brace and no line terminator, and does not start or end with white space. */
  lemma {:induction false} JoinWords(ws: seq<string>)
    requires |ws| >= 1 && forall j :: 0 <= j < |ws| ==> IsWord(ws[j])
    ensures var t := Join(ws, " ");
            '{' !in t && '}' !in t && (forall k :: 0 <= k < |t| ==> !IsLineTerminator(t[k]))
            && |t| > 0 && !IsJsWhitespace(t[0]) && !IsJsWhitespace(t[|t| - 1])
  {
    var t := Join(ws, " ");
    forall k | 0 <= k < |t| ensures t[k] != '{' && t[k] != '}' && !IsLineTerminator(t[k]) {
      JoinChars(ws, " ", t[k]);
      if t[k] != ' ' {
        var j :| 0 <= j < |ws| && t[k] in ws[j];
        var i :| 0 <= i < |ws[j]| && ws[j][i] == t[k];
      }
    }
    JoinEnds(ws);
  }

  lemma {:induction false} JoinEnds(ws: seq<string>)
    requires |ws| >= 1 && forall j :: 0 <= j < |ws| ==> IsWord(ws[j])
    ensures var t := Join(ws, " ");
            IsWord(ws[0]) && IsWord(ws[|ws| - 1])
            && |t| > 0 && t[0] == ws[0][0] && t[|t| - 1] == ws[|ws| - 1][|ws[|ws| - 1]| - 1]
  {
    if |ws| > 1 {
      JoinEnds(ws[1..]);
      assert Join(ws, " ") == ws[0] + " " + Join(ws[1..], " ");
    }
  }

  lemma {:induction false} BraceIndexAfter(l: string, rest: string)
    requires '{' !in l
    ensures BraceIndex(l + "{" + rest) == |l|
  {
    if l != [] {
      assert (l + "{" + rest)[1..] == l[1..] + "{" + rest;
      assert l[0] in l;
      BraceIndexAfter(l[1..], rest);
    } else {
      assert l + "{" + rest == "{" + rest;
    }
  }

  /** The match of `L{body}`, for a brace-free `L` and a `body` without line terminators. */
  lemma {:induction false} InfoMatch(l: string, body: string)
    requires '{' !in l
    requires forall k :: 0 <= k < |body| ==> !IsLineTerminator(body[k])
    ensures LangMatch(l + "{" + body + "}") == Some((l, "{" + body + "}"))
  {
    var tail := "{" + body + "}";
    var lang := l + "{" + body + "}";
    assert lang == l + tail == l + "{" + (body + "}");
    BraceIndexAfter(l, body + "}");
    assert lang[..|l|] == l && lang[|l|..] == tail;
    forall k | |l| <= k < |lang| ensures !IsLineTerminator(lang[k]) {
      assert lang[k] == tail[k - |l|];
      if 0 < k - |l| < |tail| - 1 {
        assert tail[k - |l|] == body[k - |l| - 1];
      }
    }
    assert BraceIndex(lang) == |l|;
    assert !exists k :: BraceIndex(lang) <= k < |lang| && IsLineTerminator(lang[k]);
    assert LangMatch(lang) == Some((lang[..|l|], lang[|l|..]));
  }

  lemma {:induction false} RemoveBracesChar(c: char)
    ensures RemoveBraces([c]) == if c == '{' || c == '}' then [] else [c]
  {
    assert [c][0] == c && [c][1..] == [];
  }

  /** Braces around a brace-free body, then a space: only the body and the space are left. */
  lemma {:induction false} InfoBraces(body: string, m: string)
    requires '{' !in body && '}' !in body
    requires m == ['{'] + body + ['}'] + [' ']
    ensures RemoveBraces(m) == body + [' ']
  {
    var rest := body + ['}', ' '];
    assert m == ['{'] + rest;
    DropOpenBrace(m, rest);
    BodyThenClose(body, rest);
  }

  lemma {:induction false} DropOpenBrace(m: string, rest: string)
    requires m == ['{'] + rest
    ensures RemoveBraces(m) == RemoveBraces(rest)
  {
    assert m[0] == '{' && m[1..] == rest;
  }

  lemma {:induction false} BodyThenClose(body: string, rest: string)
    requires '{' !in body && '}' !in body && rest == body + ['}', ' ']
    ensures RemoveBraces(rest) == body + [' ']
  {
    RemoveBracesAppend(body, ['}', ' ']);
    RemoveBracesPlain(body);
    var t := ['}', ' '];
    assert t[0] == '}' && t[1..] == [' '];
    RemoveBracesChar(' ');
  }

  /** Trimming a body and one trailing space leaves a body with no white space at its ends. */
  lemma {:induction false} TrimSpace(body: string)
    requires body == [] || (!IsJsWhitespace(body[0]) && !IsJsWhitespace(body[|body| - 1]))
    ensures Trim(body + " ") == body
  {
    var t := body + " ";
    if body == [] {
      assert t == " ";
      assert IsJsWhitespace(' ') && TrimStart(" ") == TrimStart("");
    } else {
      assert TrimStart(t) == t;
      assert t[..|t| - 1] == body;
      assert TrimEnd(t) == TrimEnd(body);
    }
  }

  /** The meta text of `{body}` with no meta string is the body. */
  lemma {:induction false} InfoMeta(body: string, tail: string)
    requires '{' !in body && '}' !in body
    requires body == [] || (!IsJsWhitespace(body[0]) && !IsJsWhitespace(body[|body| - 1]))
    requires tail == "{" + body + "}"
    ensures FullMeta(tail, None) == body
  {
    var m := tail + " " + MetaText(None);
    assert m == ['{'] + body + ['}'] + [' '];
    InfoBraces(body, m);
    TrimSpace(body);
  }

  /**
   * An info string `L{w1 w2 …}`: a language `L` without a brace, then words in
   * braces, gives `language-L` followed by the words.
   */
  lemma {:induction false} CodeClassesInfo(info: string, l: string, ws: seq<string>)
    requires l != "" && '{' !in l
    requires forall j :: 0 <= j < |ws| ==> IsWord(ws[j])
    requires info == l + "{" + Join(ws, " ") + "}"
    ensures GetCodeClasses(Some(info), None) == ["language-" + l] + ws
  {
    var body := Join(ws, " ");
    if ws != [] {
      JoinWords(ws);
    }
    var tail := "{" + body + "}";
    var lang := l + "{" + body + "}";
    InfoMatch(l, body);
    assert Groups(Some(lang)) == (l, tail);
    InfoMeta(body, tail);
    WordsJoin(ws);
  }

  /** The example in the source's own comment: `js{try id=foo}` gives `language-js`, `try`, `id=foo`. */
  lemma {:induction false} CodeClassesExample(info: string)
    requires info == "js{try id=foo}"
    ensures GetCodeClasses(Some(info), None) == ["language-js", "try", "id=foo"]
  {
    var ws := ["try", "id=foo"];
    assert IsWord("try") && IsWord("id=foo");
    assert Join(ws, " ") == "try id=foo";
    assert info == "js" + "{" + Join(ws, " ") + "}";
    CodeClassesInfo(info, "js", ws);
    assert "language-" + "js" == "language-js";
    assert ["language-js"] + ws == ["language-js", "try", "id=foo"];
  }

  // ---------------------------------------------------------------------
  // The handlers
  // ---------------------------------------------------------------------

  /** The `code` handler: `pre > code > text`, with `className` only for a non-empty class list. */
  function CodeHandler(n: Node): (h: HNode)
    ensures h.Element? && h.tagName == "pre" && h.properties == map[] && |h.children| == 1
    ensures var c := h.children[0];
            c.Element? && c.tagName == "code" && c.children == [Text(n.value)]
            && ("className" in c.properties <==> GetCodeClasses(n.lang, n.meta) != [])
            && (GetCodeClasses(n.lang, n.meta) != [] ==> c.properties == map["className" := Tokens(GetCodeClasses(n.lang, n.meta))])
            && (GetCodeClasses(n.lang, n.meta) == [] ==> c.properties == map[])
  {
    var classes := GetCodeClasses(n.lang, n.meta);
    var props: map<string, Prop> := if |classes| > 0 then map["className" := Tokens(classes)] else map[];
    Element("pre", map[], [Element("code", props, [Text(n.value)])])
  }

  /** Reading a `pre > code` block back: its text and its classes. */
  function CodeOf(h: HNode): (string, seq<string>) {
    if h.Element? && |h.children| == 1 && h.children[0].Element? && |h.children[0].children| == 1
       && h.children[0].children[0].Text?
    then
      var c := h.children[0];
      (c.children[0].value, if "className" in c.properties && c.properties["className"].Tokens? then c.properties["className"].items else [])
    else ("", [])
  }

  /** The handler loses nothing: the code text and the class list can be read back from the block. */
  lemma {:induction false} CodeHandlerRoundTrip(n: Node)
    ensures CodeOf(CodeHandler(n)) == (n.value, GetCodeClasses(n.lang, n.meta))
  {
  }

  /** The `section` handler: a `div` holding the section's converted children. */
  function SectionHandler(converted: seq<HNode>): (h: HNode)
    ensures h.Element? && h.tagName == "div" && h.properties == map[] && h.children == converted
  {
    Element("div", map[], converted)
  }

  /** A section's `div` carries exactly the text of its children. */
  lemma {:induction false} SectionHandlerText(converted: seq<HNode>)
    ensures TextContent(SectionHandler(converted)) == TextContentList(converted)
  {
  }
}
