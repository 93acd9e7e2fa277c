// The pure text logic of the raw editor (components/CodeEditor.tsx): HTML
// escaping of the highlighted layer, the gutter's line numbers, the line of
// the caret, and the scroll offset that brings the first search match into
// view.
module EditorText {
  import opened Results
  import opened Text

  // ---------------------------------------------------------------------------
  // escapeHtml
  // ---------------------------------------------------------------------------

  /** `s.replace(/c/g, rep)` for a one-character pattern. */
  function ReplaceAll(s: string, c: char, rep: string): string {
    if s == [] then []
    else (if s[0] == c then rep else [s[0]]) + ReplaceAll(s[1..], c, rep)
  }

  lemma {:induction false} ReplaceAllConcat(a: string, b: string, c: char, rep: string)
    ensures ReplaceAll(a + b, c, rep) == ReplaceAll(a, c, rep) + ReplaceAll(b, c, rep)
  {
    if a == [] {
      assert a + b == b;
    } else {
      assert (a + b)[1..] == a[1..] + b;
      ReplaceAllConcat(a[1..], b, c, rep);
    }
  }

  lemma {:induction false} ReplaceAllAbsent(s: string, c: char, rep: string)
    requires c !in s
    ensures ReplaceAll(s, c, rep) == s
  {
    if s != [] {
      assert s[0] != c;
      ReplaceAllAbsent(s[1..], c, rep);
    }
  }

  /** `escapeHtml`: the five replacements in order, `&` first. */
  function EscapeHtml(s: string): string {
    var a := ReplaceAll(s, '&', "&amp;");
    var b := ReplaceAll(a, '<', "&lt;");
    var c := ReplaceAll(b, '>', "&gt;");
    var d := ReplaceAll(c, '"', "&quot;");
    ReplaceAll(d, '\'', "&#039;")
  }

  /** The entity one character becomes. */
  function EscapeChar(x: char): string {
    if x == '&' then "&amp;"
    else if x == '<' then "&lt;"
    else if x == '>' then "&gt;"
    else if x == '"' then "&quot;"
    else if x == '\'' then "&#039;"
    else [x]
  }

  /** The reference escape: every character replaced by its entity, at once. */
  function EscapeEach(s: string): string {
    if s == [] then [] else EscapeChar(s[0]) + EscapeEach(s[1..])
  }

  lemma EscapeHtmlConcat(a: string, b: string)
    ensures EscapeHtml(a + b) == EscapeHtml(a) + EscapeHtml(b)
  {
    var a1 := ReplaceAll(a, '&', "&amp;");
    var b1 := ReplaceAll(b, '&', "&amp;");
    ReplaceAllConcat(a, b, '&', "&amp;");
    var a2 := ReplaceAll(a1, '<', "&lt;");
    var b2 := ReplaceAll(b1, '<', "&lt;");
    ReplaceAllConcat(a1, b1, '<', "&lt;");
    var a3 := ReplaceAll(a2, '>', "&gt;");
    var b3 := ReplaceAll(b2, '>', "&gt;");
    ReplaceAllConcat(a2, b2, '>', "&gt;");
    var a4 := ReplaceAll(a3, '"', "&quot;");
    var b4 := ReplaceAll(b3, '"', "&quot;");
    ReplaceAllConcat(a3, b3, '"', "&quot;");
    ReplaceAllConcat(a4, b4, '\'', "&#039;");
  }

  lemma ReplaceAllSingle(x: char, c: char, rep: string)
    ensures ReplaceAll([x], c, rep) == if x == c then rep else [x]
  {
    assert [x][1..] == [];
  }

  /** The steps after `&` leave a text without their characters alone. */
  lemma LastFourAbsent(t: string)
    requires '<' !in t && '>' !in t && '"' !in t && '\'' !in t
    ensures ReplaceAll(ReplaceAll(ReplaceAll(ReplaceAll(t, '<', "&lt;"), '>', "&gt;"), '"', "&quot;"), '\'', "&#039;") == t
  {
    ReplaceAllAbsent(t, '<', "&lt;");
    ReplaceAllAbsent(t, '>', "&gt;");
    ReplaceAllAbsent(t, '"', "&quot;");
    ReplaceAllAbsent(t, '\'', "&#039;");
  }

  lemma LastThreeAbsent(t: string)
    requires '>' !in t && '"' !in t && '\'' !in t
    ensures ReplaceAll(ReplaceAll(ReplaceAll(t, '>', "&gt;"), '"', "&quot;"), '\'', "&#039;") == t
  {
    ReplaceAllAbsent(t, '>', "&gt;");
    ReplaceAllAbsent(t, '"', "&quot;");
    ReplaceAllAbsent(t, '\'', "&#039;");
  }

  lemma LastTwoAbsent(t: string)
    requires '"' !in t && '\'' !in t
    ensures ReplaceAll(ReplaceAll(t, '"', "&quot;"), '\'', "&#039;") == t
  {
    ReplaceAllAbsent(t, '"', "&quot;");
    ReplaceAllAbsent(t, '\'', "&#039;");
  }

  /** A single character escapes to its entity: each step either writes the
      entity or passes the character on, and the later steps leave the
      entity alone. */
  lemma EscapeHtmlChar(x: char)
    ensures EscapeHtml([x]) == EscapeChar(x)
  {
    ReplaceAllSingle(x, '&', "&amp;");
    if x == '&' {
      LastFourAbsent("&amp;");
    } else {
      ReplaceAllSingle(x, '<', "&lt;");
      if x == '<' {
        LastThreeAbsent("&lt;");
      } else {
        ReplaceAllSingle(x, '>', "&gt;");
        if x == '>' {
          LastTwoAbsent("&gt;");
        } else {
          ReplaceAllSingle(x, '"', "&quot;");
          if x == '"' {
            ReplaceAllAbsent("&quot;", '\'', "&#039;");
          } else {
            ReplaceAllSingle(x, '\'', "&#039;");
          }
        }
      }
    }
  }

  /** The chained replacements escape each character on its own: because `&`
      goes first, no entity written by a later step is escaped again. */
  lemma {:induction false} EscapeHtmlIsEscapeEach(s: string)
    ensures EscapeHtml(s) == EscapeEach(s)
  {
    if s == [] {
      assert EscapeHtml(s) == [];
    } else {
      assert s == [s[0]] + s[1..];
      EscapeHtmlConcat([s[0]], s[1..]);
      EscapeHtmlChar(s[0]);
      EscapeHtmlIsEscapeEach(s[1..]);
    }
  }

  /** The escaped text holds no `<`, `>`, `"` or `'`, and is never shorter. */
  lemma {:induction false} EscapeHtmlSafe(s: string)
    ensures var e := EscapeHtml(s);
      '<' !in e && '>' !in e && '"' !in e && '\'' !in e && |e| >= |s|
  {
    EscapeHtmlIsEscapeEach(s);
    EscapeEachSafe(s);
  }

  lemma {:induction false} EscapeEachSafe(s: string)
    ensures var e := EscapeEach(s);
      '<' !in e && '>' !in e && '"' !in e && '\'' !in e && |e| >= |s|
  {
    if s != [] {
      EscapeCharSafe(s[0]);
      EscapeEachSafe(s[1..]);
    }
  }

  lemma EscapeCharSafe(x: char)
    ensures var e := EscapeChar(x);
      '<' !in e && '>' !in e && '"' !in e && '\'' !in e && |e| >= 1
  {
  }

  /** `t` begins with `p`. */
  predicate StartsWith(t: string, p: string) {
    |p| <= |t| && t[..|p|] == p
  }

  /** Decoding the five entities (and nothing else). */
  function Unescape(t: string): string
    decreases |t|
  {
    if t == [] then []
    else if t[0] != '&' then [t[0]] + Unescape(t[1..])
    else if StartsWith(t, "&amp;") then "&" + Unescape(t[5..])
    else if StartsWith(t, "&lt;") then "<" + Unescape(t[4..])
    else if StartsWith(t, "&gt;") then ">" + Unescape(t[4..])
    else if StartsWith(t, "&quot;") then "\"" + Unescape(t[6..])
    else if StartsWith(t, "&#039;") then "'" + Unescape(t[6..])
    else [t[0]] + Unescape(t[1..])
  }

  lemma UnescapeChar(x: char, rest: string)
    ensures Unescape(EscapeChar(x) + rest) == [x] + Unescape(rest)
  {
    var t := EscapeChar(x) + rest;
    if x == '&' {
      UnescapeAmp(rest);
    } else if x == '<' {
      UnescapeLt(rest);
    } else if x == '>' {
      UnescapeGt(rest);
    } else if x == '"' {
      UnescapeQuot(rest);
    } else if x == '\'' {
      UnescapeApos(rest);
    } else {
      assert t[0] == x && t[1..] == rest;
    }
  }

  lemma UnescapeAmp(rest: string)
    ensures Unescape("&amp;" + rest) == "&" + Unescape(rest)
  {
    var t := "&amp;" + rest;
    assert t[..5] == "&amp;" && t[5..] == rest;
  }

  lemma UnescapeLt(rest: string)
    ensures Unescape("&lt;" + rest) == "<" + Unescape(rest)
  {
    var t := "&lt;" + rest;
    assert t[..4] == "&lt;" && t[4..] == rest;
    assert !StartsWith(t, "&amp;") by { assert |t| < 5 || t[..5][1] != "&amp;"[1]; }
  }

  lemma UnescapeGt(rest: string)
    ensures Unescape("&gt;" + rest) == ">" + Unescape(rest)
  {
    var t := "&gt;" + rest;
    assert t[..4] == "&gt;" && t[4..] == rest;
    assert !StartsWith(t, "&amp;") by { assert |t| < 5 || t[..5][1] != "&amp;"[1]; }
    assert !StartsWith(t, "&lt;") by { assert t[..4][1] != "&lt;"[1]; }
  }

  lemma UnescapeQuot(rest: string)
    ensures Unescape("&quot;" + rest) == "\"" + Unescape(rest)
  {
    var t := "&quot;" + rest;
    assert t[..6] == "&quot;" && t[6..] == rest;
    assert !StartsWith(t, "&amp;") by { assert t[..5][1] != "&amp;"[1]; }
    assert !StartsWith(t, "&lt;") by { assert t[..4][1] != "&lt;"[1]; }
    assert !StartsWith(t, "&gt;") by { assert t[..4][1] != "&gt;"[1]; }
  }

  lemma UnescapeApos(rest: string)
    ensures Unescape("&#039;" + rest) == "'" + Unescape(rest)
  {
    var t := "&#039;" + rest;
    assert t[..6] == "&#039;" && t[6..] == rest;
    assert !StartsWith(t, "&amp;") by { assert t[..5][1] != "&amp;"[1]; }
    assert !StartsWith(t, "&lt;") by { assert t[..4][1] != "&lt;"[1]; }
    assert !StartsWith(t, "&gt;") by { assert t[..4][1] != "&gt;"[1]; }
    assert !StartsWith(t, "&quot;") by { assert t[..6][1] != "&quot;"[1]; }
  }

  /** Escaping loses nothing: decoding the entities gives the text back. */
  lemma {:induction false} UnescapeEscape(s: string)
    ensures Unescape(EscapeHtml(s)) == s
  {
    EscapeHtmlIsEscapeEach(s);
    UnescapeEscapeEach(s);
  }

  lemma {:induction false} UnescapeEscapeEach(s: string)
    ensures Unescape(EscapeEach(s)) == s
  {
    if s != [] {
      UnescapeChar(s[0], EscapeEach(s[1..]));
      UnescapeEscapeEach(s[1..]);
    }
  }

  // ---------------------------------------------------------------------------
  // Line numbers, active line, search scroll
  // ---------------------------------------------------------------------------

  /** `lines`: 1, 2, ... up to the number of lines (newlines plus one), or
      nothing when line numbers are hidden. */
  function LineNumbers(value: string, show: bool): (r: seq<nat>)
    ensures !show ==> r == []
    ensures show ==> |r| == Count(value, '\n') + 1 && forall i :: 0 <= i < |r| ==> r[i] == i + 1
  {
    if !show then []
    else
      var count := |SplitOn(value, '\n')|;
      seq(count, i requires 0 <= i < count => i + 1)
  }

  /** `updateActiveLine`: the zero-based line of the caret, counted in the text
      before it (`substring` clamps the caret to the text). */
  function ActiveLine(value: string, selectionStart: nat): (line: nat)
    ensures line == Count(value[..if selectionStart <= |value| then selectionStart else |value|], '\n')
  {
    var end := if selectionStart <= |value| then selectionStart else |value|;
    |SplitOn(value[..end], '\n')| - 1
  }

  /** The caret is always on a line the gutter numbers. */
  lemma ActiveLineNumbered(value: string, selectionStart: nat)
    ensures ActiveLine(value, selectionStart) < |LineNumbers(value, true)|
    ensures LineNumbers(value, true)[ActiveLine(value, selectionStart)] == ActiveLine(value, selectionStart) + 1
  {
    var end := if selectionStart <= |value| then selectionStart else |value|;
    assert value == value[..end] + value[end..];
    CountConcat(value[..end], value[end..], '\n');
  }

  /** The pixel height of a line (`leading-6`). */
  const LineHeight: int := 24

  datatype Scroll = Scroll(line: nat, top: nat)

  /** The search effect: for a non-empty term and text, find the term in the
      lower-cased text; scroll to 24 pixels per line of the text before the
      match, less 100 pixels of context, never above the top. */
  function SearchScroll(value: string, searchTerm: string): (r: Option<Scroll>)
    ensures r.None? <==> searchTerm == "" || value == "" || forall i :: !OccursAt(Lower(value), Lower(searchTerm), i)
    ensures r.Some? ==> var index := IndexOf(Lower(value), Lower(searchTerm));
      0 <= index <= |value| && r.value.line == Count(value[..index], '\n') &&
      r.value.top == if LineHeight * r.value.line <= 100 then 0 else LineHeight * r.value.line - 100
  {
    if searchTerm == "" || value == "" then None
    else
      var index := IndexOf(Lower(value), Lower(searchTerm));
      if index == -1 then None
      else
        var lineIndex := |SplitOn(value[..index], '\n')| - 1;
        var scrollTo := if 0 >= lineIndex * LineHeight - 100 then 0 else lineIndex * LineHeight - 100;
        Some(Scroll(lineIndex, scrollTo))
  }

  /** The scroll goes to the line of the first case-insensitive match: no
      earlier position matches, and the scroll offset grows with that line. */
  lemma SearchScrollFirstMatch(value: string, searchTerm: string, j: nat)
    requires SearchScroll(value, searchTerm).Some?
    requires OccursAt(Lower(value), Lower(searchTerm), j)
    ensures var index := IndexOf(Lower(value), Lower(searchTerm));
      index <= j && SearchScroll(value, searchTerm).value.line <= Count(value[..j], '\n')
  {
    var index := IndexOf(Lower(value), Lower(searchTerm));
    assert value[..j] == value[..index] + value[index..j];
    CountConcat(value[..index], value[index..j], '\n');
  }
}
