/**
 * The text normalisation both feed builders apply to a post's or tweet's
 * text: HTML escaping of five characters followed by `trim`, the divider cut
 * for two bilingual pages, the title (first paragraph or first line) and the
 * body (every newline becomes `<br>` plus newline).
 */
module ContentNormalizer {
  import opened Wrappers
  import opened JsStrings

  // ---------------------------------------------------------------------------
  // HTML escaping
  // ---------------------------------------------------------------------------

  /** The `replaceAll` chain, `&` first so that no inserted entity is escaped again. */
  function EscapeHtml(s: string): string
  {
    ReplaceAll(ReplaceAll(ReplaceAll(ReplaceAll(ReplaceAll(
      s, "&", "&amp;"), "<", "&lt;"), ">", "&gt;"), "\"", "&quot;"), "'", "&apos;")
  }

  /** The entity each character becomes, as a per-character reference for the chain. */
  function EscapeChar(c: char): (r: string)
    ensures forall i :: 0 <= i < |r| ==> !IsMarkupChar(r[i])
  {
    if c == '&' then "&amp;"
    else if c == '<' then "&lt;"
    else if c == '>' then "&gt;"
    else if c == '"' then "&quot;"
    else if c == '\'' then "&apos;"
    else [c]
  }

  predicate IsMarkupChar(c: char)
  {
    c == '<' || c == '>' || c == '"' || c == '\''
  }

  /** Every character replaced by its entity, left to right. */
  function EscapeEach(s: string): (r: string)
    ensures forall i :: 0 <= i < |r| ==> !IsMarkupChar(r[i])
    ensures |r| >= |s|
  {
    if s == [] then [] else EscapeChar(s[0]) + EscapeEach(s[1..])
  }

  /** The chain of one-character replacements applied to a string. */
  function Chain(s: string): string
  {
    ReplaceChar(ReplaceChar(ReplaceChar(ReplaceChar(ReplaceChar(
      s, '&', "&amp;"), '<', "&lt;"), '>', "&gt;"), '"', "&quot;"), '\'', "&apos;")
  }

  lemma ChainAppend(a: string, b: string)
    ensures Chain(a + b) == Chain(a) + Chain(b)
  {
    var a1, b1 := ReplaceChar(a, '&', "&amp;"), ReplaceChar(b, '&', "&amp;");
    ReplaceCharAppend(a, b, '&', "&amp;");
    var a2, b2 := ReplaceChar(a1, '<', "&lt;"), ReplaceChar(b1, '<', "&lt;");
    ReplaceCharAppend(a1, b1, '<', "&lt;");
    var a3, b3 := ReplaceChar(a2, '>', "&gt;"), ReplaceChar(b2, '>', "&gt;");
    ReplaceCharAppend(a2, b2, '>', "&gt;");
    var a4, b4 := ReplaceChar(a3, '"', "&quot;"), ReplaceChar(b3, '"', "&quot;");
    ReplaceCharAppend(a3, b3, '"', "&quot;");
    ReplaceCharAppend(a4, b4, '\'', "&apos;");
  }

  lemma ReplaceCharSingle(c: char, d: char, rep: string)
    ensures ReplaceChar([c], d, rep) == if c == d then rep else [c]
  {
    assert [c][1..] == [];
  }

  /** Text without markup characters passes the last four replacements unchanged. */
  lemma LaterPassesKeep(e: string)
    requires forall i :: 0 <= i < |e| ==> !IsMarkupChar(e[i])
    ensures ReplaceChar(e, '<', "&lt;") == e && ReplaceChar(e, '>', "&gt;") == e
    ensures ReplaceChar(e, '"', "&quot;") == e && ReplaceChar(e, '\'', "&apos;") == e
  {
    ReplaceCharAbsent(e, '<', "&lt;");
    ReplaceCharAbsent(e, '>', "&gt;");
    ReplaceCharAbsent(e, '"', "&quot;");
    ReplaceCharAbsent(e, '\'', "&apos;");
  }

  lemma ChainOneChar(c: char)
    ensures Chain([c]) == EscapeChar(c)
  {
    var e := EscapeChar(c);
    ReplaceCharSingle(c, '&', "&amp;");
    if c == '&' {
      LaterPassesKeep(e);
    } else {
      ReplaceCharSingle(c, '<', "&lt;");
      if c == '<' {
        LaterPassesKeep(e);
      } else {
        ReplaceCharSingle(c, '>', "&gt;");
        if c == '>' {
          LaterPassesKeep(e);
        } else {
          ReplaceCharSingle(c, '"', "&quot;");
          if c == '"' {
            LaterPassesKeep(e);
          } else {
            ReplaceCharSingle(c, '\'', "&apos;");
          }
        }
      }
    }
  }

  lemma {:induction false} ChainIsEscapeEach(s: string)
    ensures Chain(s) == EscapeEach(s)
    decreases |s|
  {
    if s != [] {
      assert s == [s[0]] + s[1..];
      ChainAppend([s[0]], s[1..]);
      ChainOneChar(s[0]);
      ChainIsEscapeEach(s[1..]);
    }
  }

  /** The `replaceAll` chain escapes each character on its own. */
  lemma EscapeHtmlIsEscapeEach(s: string)
    ensures EscapeHtml(s) == EscapeEach(s)
  {
    var s1 := ReplaceAll(s, "&", "&amp;");
    ReplaceAllOneChar(s, '&', "&amp;");
    var s2 := ReplaceAll(s1, "<", "&lt;");
    ReplaceAllOneChar(s1, '<', "&lt;");
    var s3 := ReplaceAll(s2, ">", "&gt;");
    ReplaceAllOneChar(s2, '>', "&gt;");
    var s4 := ReplaceAll(s3, "\"", "&quot;");
    ReplaceAllOneChar(s3, '"', "&quot;");
    ReplaceAllOneChar(s4, '\'', "&apos;");
    ChainIsEscapeEach(s);
  }

  /** Escaped text holds no raw `<`, `>`, `"` or `'`. */
  lemma EscapeHtmlNoMarkup(s: string)
    ensures forall i :: 0 <= i < |EscapeHtml(s)| ==> !IsMarkupChar(EscapeHtml(s)[i])
  {
    EscapeHtmlIsEscapeEach(s);
  }

  /** Reads the five entities back; any other character stands for itself. */
  function UnescapeHtml(s: string): string
    decreases |s|
  {
    if s == [] then []
    else if "&amp;" <= s then "&" + UnescapeHtml(s[5..])
    else if "&lt;" <= s then "<" + UnescapeHtml(s[4..])
    else if "&gt;" <= s then ">" + UnescapeHtml(s[4..])
    else if "&quot;" <= s then "\"" + UnescapeHtml(s[6..])
    else if "&apos;" <= s then "'" + UnescapeHtml(s[6..])
    else [s[0]] + UnescapeHtml(s[1..])
  }

  lemma UnescapeCons(c: char, rest: string)
    ensures UnescapeHtml(EscapeChar(c) + rest) == [c] + UnescapeHtml(rest)
  {
    var e := EscapeChar(c) + rest;
    assert e[|EscapeChar(c)|..] == rest;
    assert e[..|EscapeChar(c)|] == EscapeChar(c);
    if c == '<' {
      assert e[1] == 'l';
    } else if c == '>' {
      assert e[1] == 'g';
    } else if c == '"' {
      assert e[1] == 'q';
    } else if c == '\'' {
      assert e[2] == 'p';
    } else if c != '&' {
      assert e[0] == c;
      assert e[1..] == rest;
    }
  }

  /** Escaping loses nothing: decoding the entities gives the text back. */
  lemma {:induction false} UnescapeEscape(s: string)
    ensures UnescapeHtml(EscapeHtml(s)) == s
    decreases |s|
  {
    EscapeHtmlIsEscapeEach(s);
    if s != [] {
      UnescapeCons(s[0], EscapeEach(s[1..]));
      UnescapeEscape(s[1..]);
      EscapeHtmlIsEscapeEach(s[1..]);
      assert [s[0]] + s[1..] == s;
    }
  }

  lemma {:induction false} EscapeEachAppend(a: string, b: string)
    ensures EscapeEach(a + b) == EscapeEach(a) + EscapeEach(b)
    decreases |a|
  {
    if a == [] {
      assert a + b == b;
    } else {
      assert (a + b)[0] == a[0];
      assert (a + b)[1..] == a[1..] + b;
      EscapeEachAppend(a[1..], b);
    }
  }

  lemma {:induction false} EscapeEachPlain(s: string)
    requires forall i :: 0 <= i < |s| ==> s[i] != '&' && !IsMarkupChar(s[i])
    ensures EscapeEach(s) == s
    decreases |s|
  {
    if s != [] {
      EscapeEachPlain(s[1..]);
      assert [s[0]] + s[1..] == s;
    }
  }

  /** An escaped ampersand between two plain words. */
  lemma EscapeAmpersand(x: string, y: string)
    requires forall i :: 0 <= i < |x| ==> x[i] != '&' && !IsMarkupChar(x[i])
    requires forall i :: 0 <= i < |y| ==> y[i] != '&' && !IsMarkupChar(y[i])
    ensures EscapeHtml(x + "&" + y) == x + "&amp;" + y
  {
    EscapeHtmlIsEscapeEach(x + "&" + y);
    EscapeEachAppend(x + "&", y);
    EscapeEachAppend(x, "&");
    EscapeEachPlain(x);
    EscapeEachPlain(y);
    assert EscapeEach("&") == "&amp;" by {
      assert "&"[1..] == [];
    }
  }

  lemma EscapeTomAndJerry()
    ensures EscapeHtml("Tom & Jerry") == "Tom &amp; Jerry"
  {
    EscapeAmpersand("Tom ", " Jerry");
    assert "Tom " + "&" + " Jerry" == "Tom & Jerry";
    assert "Tom " + "&amp;" + " Jerry" == "Tom &amp; Jerry";
  }

  // ---------------------------------------------------------------------------
  // The divider cut: split(/^[-—]{5,}$/gm)[0]
  // ---------------------------------------------------------------------------

  /** A character `[-—]` matches: the hyphen-minus or the em dash. */
  predicate IsDash(c: char)
  {
    c == '-' || c == '\U{2014}'
  }

  /** The line terminators against which multiline `^` and `$` match. */
  predicate IsLineTerminator(c: char)
  {
    c == '\n' || c == '\r' || c == '\U{2028}' || c == '\U{2029}'
  }

  /** The number of dashes in a row from position `p`. */
  function DashRun(s: string, p: nat): (n: nat)
    requires p <= |s|
    ensures p + n <= |s|
    ensures forall k :: p <= k < p + n ==> IsDash(s[k])
    ensures p + n == |s| || !IsDash(s[p + n])
    decreases |s| - p
  {
    if p < |s| && IsDash(s[p]) then 1 + DashRun(s, p + 1) else 0
  }

  /**
   * The pattern matches at `p`: a line starts there, and the greedy run of at
   * least five dashes from `p` is followed by the end of a line. (Backing off
   * to a shorter run would leave a dash before `$`, so only the longest run
   * can match.)
   */
  predicate DividerAt(s: string, p: nat)
    requires p <= |s|
  {
    var n := DashRun(s, p);
    && (p == 0 || IsLineTerminator(s[p - 1]))
    && n >= 5
    && (p + n == |s| || IsLineTerminator(s[p + n]))
  }

  /** A whole line `s[p..e]`, of five or more characters, all dashes: the reference reading. */
  ghost predicate DashLine(s: string, p: nat, e: nat)
  {
    && p + 5 <= e <= |s|
    && (forall k :: p <= k < e ==> IsDash(s[k]))
    && (p == 0 || IsLineTerminator(s[p - 1]))
    && (e == |s| || IsLineTerminator(s[e]))
  }

  lemma {:induction false} DashRunOfLine(s: string, p: nat, e: nat)
    requires p <= e <= |s|
    requires forall k :: p <= k < e ==> IsDash(s[k])
    requires e == |s| || !IsDash(s[e])
    ensures DashRun(s, p) == e - p
    decreases e - p
  {
    if p < e {
      DashRunOfLine(s, p + 1, e);
    }
  }

  /** The matcher finds a divider exactly where a line consists of five or more dashes. */
  lemma DividerAtIff(s: string, p: nat)
    requires p <= |s|
    ensures DividerAt(s, p) <==> exists e: nat :: DashLine(s, p, e)
  {
    var n := DashRun(s, p);
    if DividerAt(s, p) {
      assert DashLine(s, p, p + n);
    }
    if e: nat :| DashLine(s, p, e) {
      DashRunOfLine(s, p, e);
    }
  }

  /** The first position at or after `q` where the pattern matches. */
  function FirstDividerFrom(s: string, q: nat): (r: Option<nat>)
    requires q <= |s|
    ensures r.Some? ==> q <= r.value < |s| && DividerAt(s, r.value)
    ensures r.Some? ==> forall p :: q <= p < r.value ==> !DividerAt(s, p)
    ensures r.None? ==> forall p :: q <= p < |s| ==> !DividerAt(s, p)
    decreases |s| - q
  {
    if q == |s| then None
    else if DividerAt(s, q) then Some(q)
    else FirstDividerFrom(s, q + 1)
  }

  /**
   * `s.split(/^[-—]{5,}$/gm)[0]`: the text before the first line made only of
   * five or more dashes, or all of `s` when there is none.
   */
  function CutAtDivider(s: string): (r: string)
    ensures r <= s
    ensures r == s ==> forall p :: 0 <= p < |s| ==> !DividerAt(s, p)
    ensures r != s ==> DividerAt(s, |r|) && forall p :: 0 <= p < |r| ==> !DividerAt(s, p)
  {
    match FirstDividerFrom(s, 0)
    case None => s
    case Some(p) => s[..p]
  }

  /**
   * A one-line text followed by a five-dash line: only the text and its
   * newline survive the cut.
   */
  lemma CutBeforeDashLine(x: string, y: string)
    requires forall i :: 0 <= i < |x| ==> !IsLineTerminator(x[i])
    requires x == [] || !IsDash(x[0])
    ensures CutAtDivider(x + "\n-----\n" + y) == x + "\n"
  {
    var s := x + "\n-----\n" + y;
    var q := |x| + 1;
    assert s[|x|] == '\n' && s[q + 5] == '\n';
    assert forall k :: q <= k < q + 5 ==> s[k] == '-';
    DashRunOfLine(s, q, q + 5);
    assert DividerAt(s, q);
    forall p | 0 <= p < q ensures !DividerAt(s, p) {
      if p == 0 {
        assert !IsDash(s[0]);
        DashRunOfLine(s, 0, 0);
      } else {
        assert s[p - 1] == x[p - 1];
      }
    }
    var r := CutAtDivider(s);
    assert |r| == q;
    assert s[..q] == x + "\n";
  }

  /** The two pages (maimaiDX and CHUNITHM International) whose posts carry a second language. */
  predicate IsBilingualPage(pageId: string)
  {
    pageId == "108610093912972" || pageId == "100784445056884"
  }

  /** The fixed notice those pages put before the English text. */
  const BilingualNotice := "(請注意：中文內容設於下方)\n"

  /** The normalised text of a Facebook post of page `pageId`. */
  function FacebookContent(pageId: string, raw: string): string
  {
    var c := Trim(EscapeHtml(raw));
    if IsBilingualPage(pageId) then Trim(ReplaceFirst(CutAtDivider(c), BilingualNotice, "")) else c
  }

  /** The normalised text of a tweet. */
  function TweetContent(raw: string): string
  {
    Trim(EscapeHtml(raw))
  }

  /** A Facebook item's title: the text up to the first blank line. */
  function PostTitle(content: string): (r: string)
    ensures r <= content && !Contains(r, "\n\n")
    ensures r == content || "\n\n" <= content[|r|..]
  {
    FirstPiece(content, "\n\n")
  }

  /** A tweet item's title: the first line of the text. */
  function TweetTitle(content: string): (r: string)
    ensures r <= content && !Contains(r, "\n")
    ensures r == content || "\n" <= content[|r|..]
  {
    FirstPiece(content, "\n")
  }

  /** The description's text part: every newline is preceded by `<br>`. */
  function Body(content: string): string
  {
    ReplaceAll(content, "\n", "<br>\n")
  }

  // ---------------------------------------------------------------------------
  // Properties
  // ---------------------------------------------------------------------------

  ghost predicate NoMarkup(s: string)
  {
    forall i :: 0 <= i < |s| ==> !IsMarkupChar(s[i])
  }

  lemma {:induction false} ReplaceFirstByEmptyKeepsChars(s: string, pat: string)
    ensures forall i :: 0 <= i < |ReplaceFirst(s, pat, "")| ==>
      ReplaceFirst(s, pat, "")[i] in s
    decreases |s|
  {
    var r := ReplaceFirst(s, pat, "");
    if pat <= s {
      assert r == s[|pat|..];
    } else if s != [] {
      ReplaceFirstByEmptyKeepsChars(s[1..], pat);
      forall i | 0 <= i < |r| ensures r[i] in s {
        if i > 0 {
          assert r[i] == ReplaceFirst(s[1..], pat, "")[i - 1];
          assert r[i] in s[1..];
        }
      }
    }
  }

  lemma TrimKeepsChars(s: string)
    ensures forall i :: 0 <= i < |Trim(s)| ==> Trim(s)[i] in s
  {
    var t := TrimStart(s);
    var r := TrimEnd(t);
    assert Trim(s) == r;
    var k := |s| - |t|;
    forall i | 0 <= i < |r| ensures r[i] in s {
      CharOfSlice(s, k, t, r, i);
    }
  }

  lemma CharOfSlice(s: string, k: nat, t: string, r: string, i: nat)
    requires k <= |s| && t == s[k..] && |r| <= |t| && r == t[..|r|] && i < |r|
    ensures r[i] in s
  {
    assert r[i] == t[i] == s[k + i];
  }

  lemma NoMarkupTrim(s: string)
    requires NoMarkup(s)
    ensures NoMarkup(Trim(s))
  {
    TrimKeepsChars(s);
  }

  /** A normalised post, on any page, holds no raw markup characters. */
  lemma FacebookContentNoMarkup(pageId: string, raw: string)
    ensures NoMarkup(FacebookContent(pageId, raw))
  {
    EscapeHtmlNoMarkup(raw);
    var c := Trim(EscapeHtml(raw));
    NoMarkupTrim(EscapeHtml(raw));
    if IsBilingualPage(pageId) {
      var cut := CutAtDivider(c);
      assert NoMarkup(cut);
      ReplaceFirstByEmptyKeepsChars(cut, BilingualNotice);
      NoMarkupTrim(ReplaceFirst(cut, BilingualNotice, ""));
    }
  }

  /** Only the two bilingual pages are cut; every other page keeps the whole escaped text. */
  lemma FacebookContentOtherPages(pageId: string, raw: string)
    requires !IsBilingualPage(pageId)
    ensures FacebookContent(pageId, raw) == TweetContent(raw)
  {
  }

  lemma {:induction false} BodyOfChars(c: string)
    ensures Body(c) == ReplaceChar(c, '\n', "<br>\n")
  {
    ReplaceAllOneChar(c, '\n', "<br>\n");
  }

  lemma {:induction false} UndoBreaks(c: string)
    requires forall i :: 0 <= i < |c| ==> c[i] != '<'
    ensures ReplaceAll(ReplaceChar(c, '\n', "<br>\n"), "<br>\n", "\n") == c
    decreases |c|
  {
    if c != [] {
      var rest := ReplaceChar(c[1..], '\n', "<br>\n");
      var x := ReplaceChar(c, '\n', "<br>\n");
      UndoBreaks(c[1..]);
      if c[0] == '\n' {
        assert x == "<br>\n" + rest;
        assert x[5..] == rest;
      } else {
        assert x == [c[0]] + rest;
        assert x[0] == c[0];
        assert x[1..] == rest;
        assert !("<br>\n" <= x);
      }
      assert [c[0]] + c[1..] == c;
    }
  }

  /** Turning each `<br>` plus newline back into a newline gives the escaped text again. */
  lemma BodyRoundTrip(pageId: string, raw: string)
    ensures var c := FacebookContent(pageId, raw); ReplaceAll(Body(c), "<br>\n", "\n") == c
  {
    var c := FacebookContent(pageId, raw);
    FacebookContentNoMarkup(pageId, raw);
    BodyOfChars(c);
    UndoBreaks(c);
  }

  /** The same for tweets. */
  lemma TweetBodyRoundTrip(raw: string)
    ensures var c := TweetContent(raw); ReplaceAll(Body(c), "<br>\n", "\n") == c
  {
    FacebookContentOtherPages("", raw);
    BodyRoundTrip("", raw);
  }
}
