/**
 * The few JavaScript string and array operations the pipeline relies on,
 * written out with the semantics of the ECMAScript standard: `substring`
 * clamps and swaps its bounds, `indexOf` takes a start position,
 * `Array.prototype.slice` counts negative bounds from the end, `parseInt`
 * reads an optional sign and a run of digits, `split` with a one-character
 * separator, `trim` with the standard's white-space set, `replace` with a
 * string pattern replacing the first occurrence only.
 *
 * Strings are sequences of characters; JavaScript indexes UTF-16 code units,
 * which differ only for characters outside the Basic Multilingual Plane.
 */
module JsStrings {

  datatype Option<T> = None | Some(value: T)

  // ---------------------------------------------------------------------
  // Prefixes, suffixes, search
  // ---------------------------------------------------------------------

  predicate StartsWith(s: string, prefix: string) {
    prefix <= s
  }

  predicate EndsWith(s: string, suffix: string) {
    |suffix| <= |s| && s[|s| - |suffix|..] == suffix
  }

  /** `pat` occurs in `s` at position `k`. */
  predicate OccursAt(s: string, pat: string, k: int) {
    0 <= k && k + |pat| <= |s| && s[k..k + |pat|] == pat
  }

  function Clamp(x: int, lo: int, hi: int): (r: int)
    requires lo <= hi
    ensures lo <= r <= hi
    ensures lo <= x <= hi ==> r == x
  {
    if x < lo then lo else if x > hi then hi else x
  }

  /** `s.indexOf(pat, from)`: the first occurrence at or after `from` (clamped), or -1. */
  function IndexOfFrom(s: string, pat: string, from: int): (r: int)
    ensures r == -1 || (Clamp(from, 0, |s|) <= r && OccursAt(s, pat, r))
    ensures r == -1 ==> forall k :: Clamp(from, 0, |s|) <= k <= |s| ==> !OccursAt(s, pat, k)
    ensures r != -1 ==> forall k :: Clamp(from, 0, |s|) <= k < r ==> !OccursAt(s, pat, k)
    decreases |s| - Clamp(from, 0, |s|)
  {
    var start := Clamp(from, 0, |s|);
    if start + |pat| > |s| then
      assert forall k :: start <= k <= |s| ==> !OccursAt(s, pat, k);
      -1
    else if s[start..start + |pat|] == pat then start
    else IndexOfFrom(s, pat, start + 1)
  }

  function IndexOf(s: string, pat: string): int {
    IndexOfFrom(s, pat, 0)
  }

  /** `s.includes(pat)` */
  predicate Includes(s: string, pat: string) {
    IndexOf(s, pat) >= 0
  }

  lemma {:induction false} IncludesIff(s: string, pat: string)
    ensures Includes(s, pat) <==> exists k :: OccursAt(s, pat, k)
  {
  }

  lemma {:induction false} EndsWithIncludes(s: string, pat: string)
    requires EndsWith(s, pat)
    ensures Includes(s, pat)
  {
    IncludesIff(s, pat);
    assert OccursAt(s, pat, |s| - |pat|);
  }

  /** `s.lastIndexOf(c)` for a one-character argument. */
  function LastIndexOfChar(s: string, c: char): (r: int)
    ensures -1 <= r < |s|
    ensures r >= 0 ==> s[r] == c && forall k :: r < k < |s| ==> s[k] != c
    ensures r == -1 ==> forall k :: 0 <= k < |s| ==> s[k] != c
  {
    if |s| == 0 then -1
    else if s[|s| - 1] == c then |s| - 1
    else LastIndexOfChar(s[..|s| - 1], c)
  }

  // ---------------------------------------------------------------------
  // Extraction
  // ---------------------------------------------------------------------

  /** `s.substring(a, b)`: both bounds clamped to [0, |s|], swapped when reversed. */
  function Substring(s: string, a: int, b: int): (r: string)
    ensures var lo, hi := Clamp(a, 0, |s|), Clamp(b, 0, |s|);
            r == if lo <= hi then s[lo..hi] else s[hi..lo]
  {
    var lo, hi := Clamp(a, 0, |s|), Clamp(b, 0, |s|);
    if lo <= hi then s[lo..hi] else s[hi..lo]
  }

  /**
   * The index at which `slice` stops for a bound `b` on a sequence of length
   * `len`: a negative bound counts from the end.
   */
  function SliceBound(b: int, len: nat): (r: nat)
    ensures r <= len
    ensures 0 <= b ==> r == if b <= len then b else len
  {
    if b < 0 then (if len + b < 0 then 0 else len + b) else if b <= len then b else len
  }

  /** `xs.slice(a, b)` for an array or a string. */
  function Slice<T>(xs: seq<T>, a: int, b: int): (r: seq<T>)
    ensures |r| <= |xs|
  {
    var lo, hi := SliceBound(a, |xs|), SliceBound(b, |xs|);
    if lo <= hi then xs[lo..hi] else []
  }

  /** Within bounds, `slice` is the plain subsequence. */
  lemma {:induction false} SliceWithin<T>(xs: seq<T>, a: int, b: int)
    requires 0 <= a <= b <= |xs|
    ensures Slice(xs, a, b) == xs[a..b]
  {
  }

  // ---------------------------------------------------------------------
  // White space, trimming, case
  // ---------------------------------------------------------------------

  /** The ECMAScript WhiteSpace and LineTerminator characters (what `trim` and `\s` match). */
  predicate IsJsWhitespace(c: char) {
    c == '\t' || c == '\n' || c == '\U{000B}' || c == '\U{000C}' || c == '\r' || c == ' '
    || c == '\U{00A0}' || c == '\U{1680}' || ('\U{2000}' <= c <= '\U{200A}')
    || c == '\U{2028}' || c == '\U{2029}' || c == '\U{202F}' || c == '\U{205F}'
    || c == '\U{3000}' || c == '\U{FEFF}'
  }

  function TrimStart(s: string): (r: string)
    ensures |r| <= |s| && (r == [] || !IsJsWhitespace(r[0]))
  {
    if |s| > 0 && IsJsWhitespace(s[0]) then TrimStart(s[1..]) else s
  }

  /** `trimStart` removes a prefix of `s`, and only white space. */
  lemma {:induction false} TrimStartSuffix(s: string)
    ensures TrimStart(s) == s[|s| - |TrimStart(s)|..]
    ensures forall k :: 0 <= k < |s| - |TrimStart(s)| ==> IsJsWhitespace(s[k])
  {
    if |s| > 0 && IsJsWhitespace(s[0]) {
      TrimStartSuffix(s[1..]);
      assert forall k :: 1 <= k < |s| ==> s[k] == s[1..][k - 1];
    }
  }

  function TrimEnd(s: string): (r: string)
    ensures r <= s && (r == [] || !IsJsWhitespace(r[|r| - 1]))
    ensures forall k :: |r| <= k < |s| ==> IsJsWhitespace(s[k])
  {
    if |s| > 0 && IsJsWhitespace(s[|s| - 1]) then TrimEnd(s[..|s| - 1]) else s
  }

  /** `s.trim()` */
  function Trim(s: string): (r: string)
    ensures r == [] || (!IsJsWhitespace(r[0]) && !IsJsWhitespace(r[|r| - 1]))
  {
    TrimEnd(TrimStart(s))
  }

  /** `trim` only removes characters: everything it keeps was in the string. */
  lemma {:induction false} TrimChars(s: string)
    ensures forall c :: c in Trim(s) ==> c in s
  {
    TrimStartSuffix(s);
    var t := TrimStart(s);
    assert t == s[|s| - |t|..];
    forall c | c in Trim(s) ensures c in s {
      var k :| 0 <= k < |Trim(s)| && Trim(s)[k] == c;
      assert Trim(s)[k] == t[k];
      assert t[k] == s[|s| - |t| + k];
    }
  }

  /** A string with no white space at either end is its own trim. */
  lemma {:induction false} TrimTrimmed(s: string)
    requires s == [] || (!IsJsWhitespace(s[0]) && !IsJsWhitespace(s[|s| - 1]))
    ensures Trim(s) == s
  {
  }

  /** White space before a string goes with the trim. */
  lemma {:induction false} TrimAfterSpace(w: string, s: string)
    requires forall k :: 0 <= k < |w| ==> IsJsWhitespace(w[k])
    ensures Trim(w + s) == Trim(s)
  {
    if w != [] {
      assert (w + s)[1..] == w[1..] + s;
      TrimAfterSpace(w[1..], s);
    } else {
      assert w + s == s;
    }
  }

  /** A string is blank when trimming leaves nothing: `!line.trim()`. */
  predicate IsBlank(s: string) {
    Trim(s) == []
  }

  lemma {:induction false} BlankIffAllWhitespace(s: string)
    ensures IsBlank(s) <==> forall k :: 0 <= k < |s| ==> IsJsWhitespace(s[k])
  {
    var t := TrimStart(s);
    TrimStartSuffix(s);
    if t != [] {
      assert t[0] == s[|s| - |t|];
      assert TrimEnd(t) != [];
    }
  }

  function LowerAsciiChar(c: char): (r: char)
    ensures 'A' <= c <= 'Z' ==> 'a' <= r <= 'z'
    ensures !('A' <= c <= 'Z') ==> r == c
  {
    if 'A' <= c <= 'Z' then (c as int + 32) as char else c
  }

  /** `s.toLowerCase()`, for the ASCII letters only. */
  function ToLowerAscii(s: string): (r: string)
    ensures |r| == |s|
    ensures forall k :: 0 <= k < |s| ==> r[k] == LowerAsciiChar(s[k])
  {
    if |s| == 0 then [] else [LowerAsciiChar(s[0])] + ToLowerAscii(s[1..])
  }

  // ---------------------------------------------------------------------
  // Split, join, replace
  // ---------------------------------------------------------------------

  /** `s.split(sep)` for a one-character separator. */
  function Split(s: string, sep: char): (r: seq<string>)
    ensures |r| >= 1
    ensures forall i :: 0 <= i < |r| ==> sep !in r[i]
  {
    if sep !in s then [s]
    else
      var i := FirstIndex(s, sep);
      [s[..i]] + Split(s[i + 1..], sep)
  }

  function CountChar(s: string, c: char): nat {
    if s == [] then 0 else (if s[0] == c then 1 else 0) + CountChar(s[1..], c)
  }

  lemma {:induction false} CountAppend(a: string, b: string, c: char)
    ensures CountChar(a + b, c) == CountChar(a, c) + CountChar(b, c)
  {
    if a != [] {
      assert (a + b)[0] == a[0] && (a + b)[1..] == a[1..] + b;
      CountAppend(a[1..], b, c);
    } else {
      assert a + b == b;
    }
  }

  lemma {:induction false} CountAbsent(s: string, c: char)
    requires c !in s
    ensures CountChar(s, c) == 0
  {
    if s != [] {
      assert c !in s[1..];
      CountAbsent(s[1..], c);
    }
  }

  /** `split` gives one piece more than there are separators. */
  lemma {:induction false} SplitCount(s: string, sep: char)
    ensures |Split(s, sep)| == CountChar(s, sep) + 1
    decreases |s|
  {
    if sep in s {
      var i := FirstIndex(s, sep);
      assert s == s[..i] + ([sep] + s[i + 1..]);
      CountAppend(s[..i], [sep] + s[i + 1..], sep);
      CountAppend([sep], s[i + 1..], sep);
      CountAbsent(s[..i], sep);
      SplitCount(s[i + 1..], sep);
    } else {
      CountAbsent(s, sep);
    }
  }

  function FirstIndex(s: string, c: char): (r: nat)
    requires c in s
    ensures r < |s| && s[r] == c && c !in s[..r]
  {
    if s[0] == c then 0 else 1 + FirstIndex(s[1..], c)
  }

  /** `parts.join(sep)` */
  function Join(parts: seq<string>, sep: string): string {
    if |parts| == 0 then []
    else if |parts| == 1 then parts[0]
    else parts[0] + sep + Join(parts[1..], sep)
  }

  lemma {:induction false} JoinSplit(s: string, sep: char)
    ensures Join(Split(s, sep), [sep]) == s
  {
    if sep in s {
      var i := FirstIndex(s, sep);
      var rest := Split(s[i + 1..], sep);
      var parts := [s[..i]] + rest;
      assert Split(s, sep) == parts;
      assert parts[1..] == rest;
      assert Join(parts, [sep]) == s[..i] + [sep] + Join(rest, [sep]);
      JoinSplit(s[i + 1..], sep);
      assert s == s[..i] + [sep] + s[i + 1..];
    }
  }

  lemma {:induction false} SplitJoin(parts: seq<string>, sep: char)
    requires |parts| >= 1
    requires forall i :: 0 <= i < |parts| ==> sep !in parts[i]
    ensures Split(Join(parts, [sep]), sep) == parts
  {
    if |parts| > 1 {
      var rest := Join(parts[1..], [sep]);
      var s := parts[0] + [sep] + rest;
      assert s[|parts[0]|] == sep;
      assert s[..|parts[0]|] == parts[0];
      assert FirstIndex(s, sep) == |parts[0]| by {
        FirstIndexOfPrefix(parts[0], [sep] + rest, sep);
      }
      assert s[|parts[0]| + 1..] == rest;
      SplitJoin(parts[1..], sep);
    }
  }

  /** Joining two non-empty lists puts one separator between their joins. */
  lemma {:induction false} JoinAppend(a: seq<string>, b: seq<string>, sep: string)
    requires |a| >= 1 && |b| >= 1
    ensures Join(a + b, sep) == Join(a, sep) + sep + Join(b, sep)
  {
    if |a| > 1 {
      assert (a + b)[0] == a[0] && (a + b)[1..] == a[1..] + b;
      JoinAppend(a[1..], b, sep);
    } else {
      assert (a + b)[0] == a[0] && (a + b)[1..] == b;
    }
  }

  /** A list whose one line is itself the join of several lines joins to the same text as the flat list. */
  lemma {:induction false} JoinNested(h: seq<string>, m: seq<string>, f: seq<string>, sep: string)
    requires |h| >= 1 && |m| >= 1 && |f| >= 1
    ensures Join(h + [Join(m, sep)] + f, sep) == Join(h + m + f, sep)
  {
    var x := Join(m, sep);
    var t, u := [x] + f, m + f;
    assert h + [x] + f == h + t;
    assert h + m + f == h + u;
    JoinAppend(h, t, sep);
    JoinAppend([x], f, sep);
    assert Join([x], sep) == x;
    JoinAppend(m, f, sep);
    JoinAppend(h, u, sep);
  }

  /** Splitting a join of lines around one nested join of lines gives the lines back, flat. */
  lemma {:induction false} SplitJoinNested(h: seq<string>, m: seq<string>, f: seq<string>, sep: char)
    requires |h| >= 1 && |f| >= 1
    requires forall i :: 0 <= i < |h| ==> sep !in h[i]
    requires forall i :: 0 <= i < |m| ==> sep !in m[i]
    requires forall i :: 0 <= i < |f| ==> sep !in f[i]
    ensures Split(Join(h + [Join(m, [sep])] + f, [sep]), sep) == h + (if m == [] then [""] else m) + f
  {
    if m == [] {
      var all := h + [""] + f;
      forall i | 0 <= i < |all| ensures sep !in all[i] {
        if i < |h| { assert all[i] == h[i]; }
        else if i > |h| { assert all[i] == f[i - |h| - 1]; }
      }
      SplitJoin(all, sep);
    } else {
      var all := h + m + f;
      forall i | 0 <= i < |all| ensures sep !in all[i] {
        if i < |h| { assert all[i] == h[i]; }
        else if i < |h| + |m| { assert all[i] == m[i - |h|]; }
        else { assert all[i] == f[i - |h| - |m|]; }
      }
      JoinNested(h, m, f, [sep]);
      SplitJoin(all, sep);
    }
  }

  lemma {:induction false} FirstIndexOfPrefix(a: string, b: string, c: char)
    requires c !in a && |b| > 0 && b[0] == c
    ensures c in a + b && FirstIndex(a + b, c) == |a|
  {
    assert (a + b)[|a|] == c;
    if |a| > 0 {
      assert (a + b)[1..] == a[1..] + b;
      FirstIndexOfPrefix(a[1..], b, c);
    }
  }

  /** `s.replace(pat, rep)` with a string pattern: only the first occurrence. */
  function ReplaceFirst(s: string, pat: string, rep: string): (r: string)
    ensures IndexOf(s, pat) < 0 ==> r == s
    ensures IndexOf(s, pat) >= 0 ==>
      var i := IndexOf(s, pat);
      |r| == |s| - |pat| + |rep| && r[..i] == s[..i] && r[i..i + |rep|] == rep
      && r[i + |rep|..] == s[i + |pat|..]
  {
    var i := IndexOf(s, pat);
    if i < 0 then s else s[..i] + rep + s[i + |pat|..]
  }

  /** `s.replaceAll(a, b)` for one-character arguments. */
  function ReplaceAllChar(s: string, a: char, b: char): (r: string)
    ensures |r| == |s|
    ensures forall k :: 0 <= k < |s| ==> r[k] == if s[k] == a then b else s[k]
  {
    if |s| == 0 then [] else [if s[0] == a then b else s[0]] + ReplaceAllChar(s[1..], a, b)
  }

  // ---------------------------------------------------------------------
  // parseInt(s, 10)
  // ---------------------------------------------------------------------

  predicate IsDigit(c: char) {
    '0' <= c <= '9'
  }

  /** The length of the run of decimal digits that starts `s`. */
  function DigitRun(s: string): (n: nat)
    ensures n <= |s|
    ensures forall k :: 0 <= k < n ==> IsDigit(s[k])
    ensures n < |s| ==> !IsDigit(s[n])
  {
    if |s| > 0 && IsDigit(s[0]) then 1 + DigitRun(s[1..]) else 0
  }

  /** The value of a string of decimal digits. */
  function DigitsValue(s: string): (v: nat)
    requires forall k :: 0 <= k < |s| ==> IsDigit(s[k])
  {
    if |s| == 0 then 0
    else
      var d: nat := assert IsDigit(s[|s| - 1]); s[|s| - 1] as int - '0' as int;
      DigitsValue(s[..|s| - 1]) * 10 + d
  }

  /** `t` without its leading sign character, if any. */
  function Unsigned(t: string): (r: string)
    ensures |r| <= |t|
  {
    if |t| > 0 && (t[0] == '+' || t[0] == '-') then t[1..] else t
  }

  /**
   * `parseInt(s, 10)`: leading white space, an optional sign, then the longest
   * run of digits; `None` is NaN (no digit after the sign).
   */
  function ParseInt(s: string): Option<int> {
    if |s| > 0 && IsJsWhitespace(s[0]) then ParseInt(s[1..]) else ParseSigned(s)
  }

  /** `parseInt` once the leading white space is gone. */
  function ParseSigned(t: string): (r: Option<int>)
    ensures r.None? <==> DigitRun(Unsigned(t)) == 0
  {
    var negative := |t| > 0 && t[0] == '-';
    var body := Unsigned(t);
    var n := DigitRun(body);
    if n == 0 then None
    else
      var v: int := DigitsValue(body[..n]);
      Some(if negative then -v else v)
  }

  lemma {:induction false} ParseIntTrims(s: string)
    ensures ParseInt(s) == ParseSigned(TrimStart(s))
    ensures ParseInt(s).None? <==> DigitRun(Unsigned(TrimStart(s))) == 0
  {
    if |s| > 0 && IsJsWhitespace(s[0]) {
      ParseIntTrims(s[1..]);
    }
  }

  /** A run of digits, with or without a minus sign in front, parses to its value. */
  lemma {:induction false} ParseIntDigits(d: string)
    requires |d| > 0 && forall k :: 0 <= k < |d| ==> IsDigit(d[k])
    ensures ParseInt(d) == Some(DigitsValue(d))
    ensures ParseInt("-" + d) == Some(-(DigitsValue(d) as int))
  {
    DigitRunAll(d);
    assert !IsJsWhitespace(d[0]) && Unsigned(d) == d;
    assert d[..|d|] == d;
    assert ParseInt(d) == ParseSigned(d);
    var m := "-" + d;
    assert m[0] == '-' && m[1..] == d;
    assert Unsigned(m) == d;
    assert ParseInt(m) == ParseSigned(m);
  }

  lemma {:induction false} DigitRunAll(d: string)
    requires forall k :: 0 <= k < |d| ==> IsDigit(d[k])
    ensures DigitRun(d) == |d|
  {
    if |d| > 0 {
      DigitRunAll(d[1..]);
    }
  }
}
