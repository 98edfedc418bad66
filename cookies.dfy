/**
 * `parseMozillaCookies`: reads a Netscape/Mozilla `cookies.txt` file and
 * hands one Set-Cookie string (the syntax of section 4.1.1 of RFC 6265) per
 * cookie row to a cookie jar, together with the URL the cookie is set from.
 * The jar is modelled by the calls it receives.
 */
module Cookies {
  import opened Wrappers
  import opened JsStrings
  import opened JsValues

  /** One `jar.setCookie(cookieString, currentUrl)` call. */
  datatype SetCookieCall = SetCookieCall(cookie: string, url: string)

  /** The exception the parser throws for a file without the Netscape header. */
  datatype TypeError = TypeError(message: string)

  const NotCookieFileMessage := "The content does not look like a Netscape format cookies file."

  /** A cookie jar, seen through the `setCookie` calls made on it. */
  class CookieJar {
    var calls: seq<SetCookieCall>

    constructor()
      ensures calls == []
    {
      calls := [];
    }

    method SetCookie(cookie: string, url: string)
      modifies this
      ensures calls == old(calls) + [SetCookieCall(cookie, url)]
    {
      calls := calls + [SetCookieCall(cookie, url)];
    }
  }

  // ---------------------------------------------------------------------------
  // Header and rows
  // ---------------------------------------------------------------------------

  /** `content.match(/^#( Netscape)? HTTP Cookie File/u)` succeeds. */
  predicate HasMagic(content: string)
  {
    StartsWith(content, "# HTTP Cookie File") || StartsWith(content, "# Netscape HTTP Cookie File")
  }

  /** `content.split(/\r?\n/u)`: rows end at "\n" or "\r\n", neither kept. */
  function SplitRows(s: string): (rows: seq<string>)
    ensures |rows| >= 1
    ensures forall i :: 0 <= i < |rows| ==> '\n' !in rows[i]
    decreases |s|
  {
    if s == [] then [[]]
    else if s[0] == '\n' then [[]] + SplitRows(s[1..])
    else if |s| >= 2 && s[0] == '\r' && s[1] == '\n' then [[]] + SplitRows(s[2..])
    else
      var rest := SplitRows(s[1..]);
      [[s[0]] + rest[0]] + rest[1..]
  }

  /** A line break of either kind ends the first row and is dropped. */
  lemma {:induction false} SplitRowsConcat(a: string, eol: string, b: string)
    requires eol == "\n" || eol == "\r\n"
    requires '\n' !in a && '\r' !in a
    ensures SplitRows(a + eol + b) == [a] + SplitRows(b)
    decreases |a|
  {
    var s := a + eol + b;
    if a == [] {
      assert s == eol + b;
      if eol == "\n" {
        assert s[1..] == b;
      } else {
        assert s[2..] == b;
      }
    } else {
      assert s[0] == a[0];
      assert s[1..] == a[1..] + eol + b;
      SplitRowsConcat(a[1..], eol, b);
      assert [a[0]] + a[1..] == a;
    }
  }

  /** A text without line breaks is one row. */
  lemma {:induction false} SplitRowsSingle(a: string)
    requires '\n' !in a && '\r' !in a
    ensures SplitRows(a) == [a]
    decreases |a|
  {
    if a != [] {
      SplitRowsSingle(a[1..]);
      assert [a[0]] + a[1..] == a;
    }
  }

  /** Rows joined by line breaks split back into the same rows. */
  lemma {:induction false} SplitRowsJoin(rows: seq<string>, eol: string)
    requires eol == "\n" || eol == "\r\n"
    requires |rows| >= 1
    requires forall i :: 0 <= i < |rows| ==> '\n' !in rows[i] && '\r' !in rows[i]
    ensures SplitRows(Join(rows, eol)) == rows
    decreases |rows|
  {
    if |rows| == 1 {
      SplitRowsSingle(rows[0]);
    } else {
      SplitRowsConcat(rows[0], eol, Join(rows[1..], eol));
      SplitRowsJoin(rows[1..], eol);
      assert [rows[0]] + rows[1..] == rows;
    }
  }

  /** `if (row.endsWith("\n")) row = row.slice(0, -1)`. */
  function DropNewline(row: string): (r: string)
    ensures r <= row
  {
    if EndsWith(row, "\n") then row[..|row| - 1] else row
  }

  /** Rows out of SplitRows never end with "\n", so the slice above never applies. */
  lemma RowsKeepTheirLastChar(content: string, i: nat)
    requires i < |SplitRows(content)|
    ensures DropNewline(SplitRows(content)[i]) == SplitRows(content)[i]
  {
    NoNewlineAtEnd(SplitRows(content)[i]);
  }

  lemma NoNewlineAtEnd(row: string)
    requires '\n' !in row
    ensures !EndsWith(row, "\n")
  {
    if |row| >= 1 {
      assert row[|row| - 1] in row;
    }
  }

  /** `row.startsWith("#") || row.trim() === ""`: comments, `#HttpOnly_` rows and blank rows. */
  predicate Skipped(row: string)
  {
    StartsWith(row, "#") || Trim(row) == []
  }

  // ---------------------------------------------------------------------------
  // The Set-Cookie string
  // ---------------------------------------------------------------------------

  /** The value an attribute of the `attrs` object holds. */
  datatype AttrValue =
    | Flag(on: bool)                // `true` (HttpOnly, Secure)
    | Moment(time: Option<int>)     // a Date, None when it is an Invalid Date
    | Value(text: Option<string>)   // a string, or `undefined`

  /** One own property of `attrs`, in insertion order. */
  datatype Attr = Attr(name: string, value: AttrValue)

  /** A template-literal rendering of a string that may be `undefined`. */
  function Interpolated(v: Option<string>): (r: string)
    ensures v.Some? ==> r == v.value
    ensures v.None? ==> r == "undefined"
  {
    match v
    case None => "undefined"
    case Some(s) => s
  }

  /** Destructuring `row.split("\t")`: the `i`-th field, `undefined` past the end. */
  function Field(fields: seq<string>, i: nat): (r: Option<string>)
    ensures r.Some? <==> i < |fields|
    ensures r.Some? ==> r.value == fields[i]
  {
    if i < |fields| then Some(fields[i]) else None
  }

  /** `new Date(Number(expires) * 1000)`. */
  function ExpiryTime(expires: Option<string>): Option<int>
  {
    TimeClip(Multiply(ToNumber(expires), Finite(1000)))
  }

  /** The text one attribute adds: `; Name`, `; Name=<UTC date>` or `; Name=value`; nothing for `false`. */
  function RenderAttr(a: Attr): string
  {
    match a.value
    case Flag(on) => if on then "; " + a.name else ""
    case Moment(t) => "; " + a.name + "=" + ToUtcString(t)
    case Value(v) => "; " + a.name + "=" + Interpolated(v)
  }

  /** The attributes rendered in order, as the `for … of Object.entries(attrs)` loop appends them. */
  function RenderAttrs(attrs: seq<Attr>): string
  {
    if |attrs| == 0 then [] else RenderAttrs(attrs[..|attrs| - 1]) + RenderAttr(attrs[|attrs| - 1])
  }

  /** Rendering distributes over a split of the attribute list. */
  lemma {:induction false} RenderAttrsAppend(a: seq<Attr>, b: seq<Attr>)
    ensures RenderAttrs(a + b) == RenderAttrs(a) + RenderAttrs(b)
    decreases |b|
  {
    if b == [] {
      assert a + b == a;
    } else {
      var b', x := b[..|b| - 1], b[|b| - 1];
      assert (a + b)[..|a + b| - 1] == a + b';
      assert (a + b)[|a + b| - 1] == x;
      calc {
        RenderAttrs(a + b);
        RenderAttrs(a + b') + RenderAttr(x);
        { RenderAttrsAppend(a, b'); }
        RenderAttrs(a) + RenderAttrs(b') + RenderAttr(x);
        { ConcatAssoc(RenderAttrs(a), RenderAttrs(b'), RenderAttr(x)); }
        RenderAttrs(a) + (RenderAttrs(b') + RenderAttr(x));
      }
    }
  }

  /** One more attribute adds its own text at the end. */
  lemma RenderAttrsSnoc(attrs: seq<Attr>, j: nat)
    requires j < |attrs|
    ensures RenderAttrs(attrs[..j + 1]) == RenderAttrs(attrs[..j]) + RenderAttr(attrs[j])
  {
    assert attrs[..j + 1][..j] == attrs[..j];
  }

  /** The attributes set for a row, in the order they are assigned. */
  function RowAttributes(raw: string, fields: seq<string>): seq<Attr>
    requires |fields| >= 1
  {
    var marked := if StartsWith(raw, "#HttpOnly_") then [Attr("HttpOnly", Flag(true))] else [];
    var located := marked
      + [Attr("Domain", Value(Some(fields[0])))]
      + [Attr("Path", Value(Field(fields, 2)))]
      + [Attr("Expires", Moment(ExpiryTime(Field(fields, 4))))];
    if Field(fields, 3) == Some("TRUE") then located + [Attr("Secure", Flag(true))] else located
  }

  /** `value` when the name is empty, `name=value` otherwise. */
  function CookieHead(name: Option<string>, value: Option<string>): string
  {
    if name == Some("") then Interpolated(value) else Interpolated(name) + "=" + Interpolated(value)
  }

  /** `https://` and the domain without one leading ".". */
  function CookieUrl(domain: string): (r: string)
    ensures StartsWith(r, "https://")
  {
    "https://" + (if StartsWith(domain, ".") then domain[1..] else domain)
  }

  /** The call one row makes, if any. */
  function RowCall(raw: string): Option<SetCookieCall>
  {
    var row := DropNewline(raw);
    if Skipped(row) then None
    else
      var fields := Split(row, "\t");
      Some(SetCookieCall(
        CookieHead(Field(fields, 5), Field(fields, 6)) + RenderAttrs(RowAttributes(raw, fields)),
        CookieUrl(fields[0])))
  }

  /** The calls the rows make, in row order. */
  function RowsCalls(rows: seq<string>): seq<SetCookieCall>
  {
    if |rows| == 0 then []
    else
      var last := RowCall(rows[|rows| - 1]);
      RowsCalls(rows[..|rows| - 1]) + (if last.Some? then [last.value] else [])
  }

  /** One more row adds its own call, if any, at the end. */
  lemma RowsCallsSnoc(rows: seq<string>, i: nat)
    requires i < |rows|
    ensures RowsCalls(rows[..i + 1])
      == RowsCalls(rows[..i]) + (if RowCall(rows[i]).Some? then [RowCall(rows[i]).value] else [])
  {
    assert rows[..i + 1][..i] == rows[..i];
  }

  /** What `parseMozillaCookies(jar, content)` does: throw, or make these calls. */
  function CookieFileCalls(content: string): Result<seq<SetCookieCall>, TypeError>
  {
    if !HasMagic(content) then Err(TypeError(NotCookieFileMessage))
    else Ok(RowsCalls(SplitRows(content)))
  }

  // ---------------------------------------------------------------------------
  // Properties
  // ---------------------------------------------------------------------------

  /** A row makes a call exactly when it is neither a comment nor blank. */
  lemma RowCallIff(row: string)
    requires '\n' !in row
    ensures RowCall(row).None? <==> StartsWith(row, "#") || Trim(row) == []
  {
  }

  /** A comment row makes no call, whatever else it holds. */
  lemma CommentRowNoCall(row: string)
    requires StartsWith(row, "#")
    ensures RowCall(row).None?
  {
    if EndsWith(row, "\n") {
      assert row[0] == '#';
      assert DropNewline(row)[..1] == row[..1];
    }
  }

  lemma LeadingHashIsComment(row: string)
    requires |row| > 0 && row[0] == '#'
    ensures RowCall(row).None?
  {
    assert row[..1] == "#";
    CommentRowNoCall(row);
  }

  /** A `#HttpOnly_` row marks the cookie HttpOnly and is then skipped as a comment. */
  lemma HttpOnlyRowsSkipped(row: string)
    requires StartsWith(row, "#HttpOnly_")
    ensures RowCall(row).None?
  {
    assert row[..1] == "#";
    CommentRowNoCall(row);
  }

  /** One more attribute adds its own text at the end. */
  lemma RenderAttrsPush(attrs: seq<Attr>, a: Attr)
    ensures RenderAttrs(attrs + [a]) == RenderAttrs(attrs) + RenderAttr(a)
  {
    assert (attrs + [a])[..|attrs|] == attrs;
  }

  /** The texts of the attributes a cookie row sets. */
  lemma AttrTexts(domain: string, path: Option<string>, expires: Option<int>)
    ensures RenderAttr(Attr("Domain", Value(Some(domain)))) == "; Domain=" + domain
    ensures RenderAttr(Attr("Path", Value(path))) == "; Path=" + Interpolated(path)
    ensures RenderAttr(Attr("Expires", Moment(expires))) == "; Expires=" + ToUtcString(expires)
    ensures RenderAttr(Attr("Secure", Flag(true))) == "; Secure"
  {
    DomainAttrText(domain);
    PathAttrText(path);
    MomentAttrText(expires);
  }

  /** The domain renders as `; Domain=<domain>`. */
  lemma DomainAttrText(domain: string)
    ensures RenderAttr(Attr("Domain", Value(Some(domain)))) == "; Domain=" + domain
  {
    ConcatAssoc("; ", "Domain", "=");
    ConcatAssoc("; " + "Domain", "=", domain);
  }

  /** The path renders as `; Path=<path>`, `undefined` when it is missing. */
  lemma PathAttrText(path: Option<string>)
    ensures RenderAttr(Attr("Path", Value(path))) == "; Path=" + Interpolated(path)
  {
    ConcatAssoc("; ", "Path", "=");
    ConcatAssoc("; " + "Path", "=", Interpolated(path));
  }

  /** The expiry renders as `; Expires=<UTC date>`. */
  lemma MomentAttrText(t: Option<int>)
    ensures RenderAttr(Attr("Expires", Moment(t))) == "; Expires=" + ToUtcString(t)
  {
    ConcatAssoc("; ", "Expires", "=");
    ConcatAssoc("; " + "Expires", "=", ToUtcString(t));
  }

  /** Outside `#HttpOnly_` rows the attributes render as Domain, Path, Expires and maybe Secure. */
  lemma RenderRowAttributes(raw: string, fields: seq<string>)
    requires |fields| >= 1
    requires !StartsWith(raw, "#HttpOnly_")
    ensures RenderAttrs(RowAttributes(raw, fields))
      == ("; Domain=" + fields[0])
       + ("; Path=" + Interpolated(Field(fields, 2)))
       + ("; Expires=" + ToUtcString(ExpiryTime(Field(fields, 4))))
       + (if Field(fields, 3) == Some("TRUE") then "; Secure" else "")
  {
    var d, p, e := Attr("Domain", Value(Some(fields[0]))), Attr("Path", Value(Field(fields, 2))),
      Attr("Expires", Moment(ExpiryTime(Field(fields, 4))));
    AttrTexts(fields[0], Field(fields, 2), ExpiryTime(Field(fields, 4)));
    var empty: seq<Attr> := [];
    var located := empty + [d] + [p] + [e];
    var dt, pt, et := "; Domain=" + fields[0], "; Path=" + Interpolated(Field(fields, 2)),
      "; Expires=" + ToUtcString(ExpiryTime(Field(fields, 4)));
    RenderAttrsPush(empty, d);
    assert RenderAttrs(empty) == [];
    assert RenderAttrs(empty + [d]) == dt by {
      assert [] + dt == dt;
    }
    RenderAttrsPush(empty + [d], p);
    RenderAttrsPush(empty + [d] + [p], e);
    assert RenderAttrs(located) == dt + pt + et;
    assert RowAttributes(raw, fields) == located
      || RowAttributes(raw, fields) == located + [Attr("Secure", Flag(true))];
    if Field(fields, 3) == Some("TRUE") {
      RenderAttrsPush(located, Attr("Secure", Flag(true)));
    } else {
      assert dt + pt + et + "" == dt + pt + et;
    }
  }

  /**
   * The string of a cookie row: its head, then Domain, Path, Expires and,
   * exactly when the secure field is "TRUE", Secure; never HttpOnly.
   */
  lemma RowCallForm(row: string)
    requires '\n' !in row
    requires !StartsWith(row, "#") && Trim(row) != []
    ensures var fields := Split(row, "\t");
      var secure := Field(fields, 3) == Some("TRUE");
      RowCall(row) == Some(SetCookieCall(
        CookieHead(Field(fields, 5), Field(fields, 6))
          + ("; Domain=" + fields[0])
          + ("; Path=" + Interpolated(Field(fields, 2)))
          + ("; Expires=" + ToUtcString(ExpiryTime(Field(fields, 4))))
          + (if secure then "; Secure" else ""),
        CookieUrl(fields[0])))
  {
    RowCallIff(row);
    NoNewlineAtEnd(row);
    var fields := Split(row, "\t");
    assert !StartsWith(row, "#HttpOnly_");
    RenderRowAttributes(row, fields);
    var h := CookieHead(Field(fields, 5), Field(fields, 6));
    var dt, pt, et := "; Domain=" + fields[0], "; Path=" + Interpolated(Field(fields, 2)),
      "; Expires=" + ToUtcString(ExpiryTime(Field(fields, 4)));
    var st := if Field(fields, 3) == Some("TRUE") then "; Secure" else "";
    ConcatAssoc(h, dt + pt + et, st);
    ConcatAssoc(h, dt + pt, et);
    ConcatAssoc(h, dt, pt);
  }

  /** The rows of a split file make their calls in order. */
  lemma {:induction false} RowsCallsAppend(a: seq<string>, b: seq<string>)
    ensures RowsCalls(a + b) == RowsCalls(a) + RowsCalls(b)
    decreases |b|
  {
    if b == [] {
      assert a + b == a;
    } else {
      var b' := b[..|b| - 1];
      assert (a + b)[..|a + b| - 1] == a + b';
      assert (a + b)[|a + b| - 1] == b[|b| - 1];
      RowsCallsAppend(a, b');
      var last := RowCall(b[|b| - 1]);
      ConcatAssoc(RowsCalls(a), RowsCalls(b'), if last.Some? then [last.value] else []);
    }
  }

  /** A domain with a leading "." sets cookies from the same URL as the bare host. */
  lemma CookieUrlIgnoresLeadingDot(host: string)
    requires !StartsWith(host, ".")
    ensures CookieUrl("." + host) == CookieUrl(host) == "https://" + host
  {
    assert ("." + host)[1..] == host;
  }

  /** Without the header nothing is read. */
  lemma NoMagicThrows(content: string)
    requires !StartsWith(content, "#")
    ensures CookieFileCalls(content) == Err(TypeError(NotCookieFileMessage))
  {
  }

  /** The expiry field of the example row, in milliseconds. */
  lemma ExampleExpiry()
    ensures ExpiryTime(Some("9754056585")) == Some(9_754_056_585_000)
  {
    assert Digits(9) == "9";
    assert Digits(97) == "97";
    assert Digits(975) == "975";
    assert Digits(9754) == "9754";
    assert Digits(97540) == "97540";
    assert Digits(975405) == "975405";
    assert Digits(9754056) == "9754056";
    assert Digits(97540565) == "97540565";
    assert Digits(975405658) == "975405658";
    assert Digits(9754056585) == "9754056585";
    NumberOfDigits(9754056585);
  }

  /** The day 112894 after the epoch is 4 February 2279. */
  lemma ExampleCivilDate()
    ensures CivilFromDays(112_894) == (2279, 2, 4)
  {
    assert 832_362 / 146097 == 5;
    assert 101_877 / 1460 == 69 && 101_877 / 36524 == 2 && 101_877 / 146096 == 0;
    assert 101_810 / 365 == 278;
    assert 278 / 4 == 69 && 278 / 100 == 2;
    assert 1702 / 153 == 11;
    assert 1685 / 5 == 337;
  }

  /** The fields of the example instant: day 112894, at 04:09:45. */
  lemma ExampleClock()
    ensures 9_754_056_585_000 / MsPerDay == 112_894
    ensures 9_754_056_585_000 % MsPerDay == 14_985_000
    ensures (112_894 + 4) % 7 == 2
    ensures 14_985_000 / 3_600_000 == 4
    ensures 14_985_000 / 60_000 % 60 == 9
    ensures 14_985_000 / 1000 % 60 == 45
  {
  }

  /** The zero-padded numbers the example date shows. */
  lemma ExamplePadding()
    ensures Padded(2279, 4) == "2279"
    ensures Padded(4, 2) == "04"
    ensures Padded(9, 2) == "09"
    ensures Padded(45, 2) == "45"
  {
    assert Digits(2) == "2" && Digits(22) == "22" && Digits(227) == "227" && Digits(2279) == "2279";
    assert Digits(4) == "4";
    assert Digits(9) == "9";
    assert Digits(45) == "45";
  }

  /** Its UTC rendering. */
  lemma ExampleExpiryText()
    ensures ToUtcString(Some(9_754_056_585_000)) == "Tue, 04 Feb 2279 04:09:45 GMT"
  {
    ExampleClock();
    ExampleCivilDate();
    ExamplePadding();
  }

  /** The cookie row of the repository's example file, field by field. */
  const ExampleFields := [".twitter.com", "TRUE", "/", "TRUE", "9754056585", "test", "test"]

  const ExampleRow := Join(ExampleFields, "\t")

  /** The example file: three comment rows, a blank row and the cookie row. */
  const ExampleHeader := "# Netscape HTTP Cookie File"
  const ExampleLink := "# https://curl.haxx.se/rfc/cookie_spec.html"
  const ExampleNotice := "# This is a generated file! Do not edit."
  const ExampleLines := [ExampleHeader, ExampleLink, ExampleNotice, "", ExampleRow]

  const ExampleFile := Join(ExampleLines, "\n")

  /** The string the example row sets, piece by piece as the parser appends them. */
  const ExampleCookie := "test" + "=" + "test" + ("; Domain=" + ".twitter.com") + ("; Path=" + "/")
    + ("; Expires=" + "Tue, 04 Feb 2279 04:09:45 GMT") + "; Secure"

  /** A row whose first character is not whitespace is not blank. */
  lemma NotBlank(s: string)
    requires s != [] && !IsWhitespace(s[0])
    ensures Trim(s) != []
  {
    assert TrimStart(s) == s;
  }

  /**
   * A row of seven tab-separated fields, the first neither empty nor
   * starting with "#" or whitespace, sets the cookie its fields describe.
   */
  /**
   * The expiry of a row whose expires field is `n` seconds: `n·1000` ms when
   * that is a valid Date, an Invalid Date otherwise.
   */
  lemma ExpiryOfSeconds(n: nat)
    ensures ExpiryTime(Some(Digits(n))) == if 1000 * n <= MaxTimeValue then Some(1000 * n) else None
  {
    NumberOfDigits(n);
  }

  /**
   * A cookie row without a tab has one field: the missing ones interpolate
   * as `undefined` and the expiry is an Invalid Date.
   */
  lemma ShortRowCall(row: string)
    requires '\n' !in row && '\t' !in row
    requires !StartsWith(row, "#") && Trim(row) != []
    ensures RowCall(row) == Some(SetCookieCall(
      "undefined=undefined; Domain=" + row + "; Path=undefined; Expires=Invalid Date", CookieUrl(row)))
  {
    ShortRowFields(row);
    ShortRowText(row);
  }

  lemma ShortRowFields(row: string)
    requires '\n' !in row && '\t' !in row
    requires !StartsWith(row, "#") && Trim(row) != []
    ensures RowCall(row) == Some(SetCookieCall(
      CookieHead(None, None) + ("; Domain=" + row) + ("; Path=" + Interpolated(None))
        + ("; Expires=" + ToUtcString(ExpiryTime(None))) + "",
      CookieUrl(row)))
  {
    RowCallForm(row);
    SplitCharAbsent(row, '\t');
    assert "\t" == ['\t'];
    var fields := Split(row, "\t");
    assert fields == [row];
    assert Field(fields, 2) == None && Field(fields, 3) == None;
    assert Field(fields, 4) == None && Field(fields, 5) == None && Field(fields, 6) == None;
  }

  lemma ShortRowText(row: string)
    ensures CookieHead(None, None) + ("; Domain=" + row) + ("; Path=" + Interpolated(None))
        + ("; Expires=" + ToUtcString(ExpiryTime(None))) + ""
      == "undefined=undefined; Domain=" + row + "; Path=undefined; Expires=Invalid Date"
  {
    ShortRowPieces();
    HeadGlue("undefined=undefined", "; Domain=", "undefined=undefined; Domain=", row,
      "; Path=undefined", "; Expires=Invalid Date");
  }

  /** The texts of the missing fields of a one-field row. */
  lemma ShortRowPieces()
    ensures CookieHead(None, None) == "undefined=undefined"
    ensures "; Path=" + Interpolated(None) == "; Path=undefined"
    ensures "; Expires=" + ToUtcString(ExpiryTime(None)) == "; Expires=Invalid Date"
  {
  }

  lemma HeadGlue(a: string, b: string, ab: string, row: string, p: string, e: string)
    requires a + b == ab
    ensures a + (b + row) + p + e + "" == ab + row + p + e
  {
    ConcatAssoc(a, b, row);
    assert ab + row + p + e + "" == ab + row + p + e;
  }

  lemma SevenFieldRow(fields: seq<string>)
    requires |fields| == 7
    requires forall i :: 0 <= i < 7 ==> '\t' !in fields[i] && '\n' !in fields[i]
    requires fields[0] != [] && fields[0][0] != '#' && !IsWhitespace(fields[0][0])
    ensures '\n' !in Join(fields, "\t")
    ensures RowCall(Join(fields, "\t")) == Some(SetCookieCall(
      CookieHead(Some(fields[5]), Some(fields[6]))
        + ("; Domain=" + fields[0])
        + ("; Path=" + fields[2])
        + ("; Expires=" + ToUtcString(ExpiryTime(Some(fields[4]))))
        + (if fields[3] == "TRUE" then "; Secure" else ""),
      CookieUrl(fields[0])))
  {
    var row := Join(fields, "\t");
    JoinAvoids(fields, "\t", '\n');
    assert row == fields[0] + ("\t" + Join(fields[1..], "\t"));
    assert row[0] == fields[0][0];
    NotBlank(row);
    SplitJoinChar(fields, '\t');
    RowCallForm(row);
  }

  /** A file whose first row carries the header makes the calls of its rows. */
  lemma CookieFileOfRows(rows: seq<string>)
    requires |rows| >= 1
    requires forall i :: 0 <= i < |rows| ==> '\n' !in rows[i] && '\r' !in rows[i]
    requires HasMagic(rows[0])
    ensures CookieFileCalls(Join(rows, "\n")) == Ok(RowsCalls(rows))
  {
    SplitRowsJoin(rows, "\n");
    MagicOfJoin(rows);
  }

  /** The header in the first row is the header of the whole file. */
  lemma MagicOfJoin(rows: seq<string>)
    requires |rows| >= 1
    requires HasMagic(rows[0])
    ensures HasMagic(Join(rows, "\n"))
  {
    if |rows| > 1 {
      var rest := Join(rows[1..], "\n");
      ConcatAssoc(rows[0], "\n", rest);
      MagicExtends(rows[0], "\n" + rest);
    }
  }

  /** Text after the header does not disturb it. */
  lemma MagicExtends(header: string, rest: string)
    requires HasMagic(header)
    ensures HasMagic(header + rest)
  {
    if StartsWith(header, "# HTTP Cookie File") {
      PrefixExtends(header, "# HTTP Cookie File", rest);
    } else {
      PrefixExtends(header, "# Netscape HTTP Cookie File", rest);
    }
  }

  /** No field of the example row holds a tab or a line break; the domain starts with ".". */
  lemma ExampleFieldsPlain()
    ensures forall i :: 0 <= i < |ExampleFields| ==>
      '\t' !in ExampleFields[i] && '\n' !in ExampleFields[i] && '\r' !in ExampleFields[i]
    ensures |ExampleFields| == 7 && ExampleFields[0] != [] && ExampleFields[0][0] == '.'
  {
  }

  /** The example domain ".twitter.com" is sent to https://twitter.com. */
  lemma ExampleUrl()
    ensures CookieUrl(ExampleFields[0]) == "https://" + "twitter.com"
  {
    assert ".twitter.com" == "." + "twitter.com";
    assert "twitter.com"[0] != '.';
    CookieUrlIgnoresLeadingDot("twitter.com");
  }

  /** The example fields give the pieces of the example cookie. */
  lemma ExamplePieces()
    ensures CookieHead(Some(ExampleFields[5]), Some(ExampleFields[6]))
        + ("; Domain=" + ExampleFields[0])
        + ("; Path=" + ExampleFields[2])
        + ("; Expires=" + ToUtcString(ExpiryTime(Some(ExampleFields[4]))))
        + (if ExampleFields[3] == "TRUE" then "; Secure" else "")
      == ExampleCookie
  {
    ExampleExpiry();
    ExampleExpiryText();
    assert CookieHead(Some("test"), Some("test")) == "test" + "=" + "test";
  }

  /** The cookie row of the example sets `test=test` for https://twitter.com. */
  lemma ExampleRowCall()
    ensures '\n' !in ExampleRow && '\r' !in ExampleRow
    ensures RowCall(ExampleRow) == Some(SetCookieCall(ExampleCookie, "https://" + "twitter.com"))
  {
    ExampleFieldsPlain();
    JoinAvoids(ExampleFields, "\t", '\r');
    SevenFieldRow(ExampleFields);
    ExamplePieces();
    ExampleUrl();
  }

  lemma ExampleHeaderPlain()
    ensures '\n' !in ExampleHeader && '\r' !in ExampleHeader
  {
  }

  lemma ExampleLinkPlain()
    ensures '\n' !in ExampleLink && '\r' !in ExampleLink
  {
    ExampleLinkNoNewline();
    ExampleLinkNoReturn();
  }

  lemma ExampleLinkNoNewline()
    ensures '\n' !in ExampleLink
  {
  }

  lemma ExampleLinkNoReturn()
    ensures '\r' !in ExampleLink
  {
  }

  lemma ExampleNoticePlain()
    ensures '\n' !in ExampleNotice && '\r' !in ExampleNotice
  {
    ExampleNoticeNoNewline();
    ExampleNoticeNoReturn();
  }

  lemma ExampleNoticeNoNewline()
    ensures '\n' !in ExampleNotice
  {
  }

  lemma ExampleNoticeNoReturn()
    ensures '\r' !in ExampleNotice
  {
  }

  predicate RowIsPlain(row: string)
  {
    '\n' !in row && '\r' !in row
  }

  /** A file of five rows, the first carrying the header, makes the calls of its rows. */
  lemma FiveRowFile(h: string, l: string, n: string, b: string, r: string)
    requires HasMagic(h)
    requires RowIsPlain(h) && RowIsPlain(l) && RowIsPlain(n) && RowIsPlain(b) && RowIsPlain(r)
    ensures CookieFileCalls(Join([h, l, n, b, r], "\n")) == Ok(RowsCalls([h, l, n, b, r]))
  {
    var rows := [h, l, n, b, r];
    forall i | 0 <= i < |rows|
      ensures '\n' !in rows[i] && '\r' !in rows[i]
    {
      assert RowIsPlain(rows[i]);
    }
    CookieFileOfRows(rows);
  }

  /** Four rows that make no call followed by one that does make that one call. */
  lemma FiveRowCalls(rows: seq<string>, call: SetCookieCall)
    requires |rows| == 5
    requires RowCall(rows[0]).None? && RowCall(rows[1]).None?
    requires RowCall(rows[2]).None? && RowCall(rows[3]).None?
    requires RowCall(rows[4]) == Some(call)
    ensures RowsCalls(rows) == [call]
  {
    var pre := rows[..4];
    assert pre[0] == rows[0] && pre[1] == rows[1] && pre[2] == rows[2] && pre[3] == rows[3];
    FourSkippedRows(pre);
    OnlyLastRowCalls(rows, call);
  }

  lemma FourSkippedRows(rows: seq<string>)
    requires |rows| == 4
    requires RowCall(rows[0]).None? && RowCall(rows[1]).None?
    requires RowCall(rows[2]).None? && RowCall(rows[3]).None?
    ensures RowsCalls(rows) == []
  {
    RowsCallsSnoc(rows, 0);
    RowsCallsSnoc(rows, 1);
    RowsCallsSnoc(rows, 2);
    RowsCallsSnoc(rows, 3);
    assert rows[..0] == [] && rows[..4] == rows;
  }

  /** Rows of which only the last makes a call make that one call. */
  lemma OnlyLastRowCalls(rows: seq<string>, call: SetCookieCall)
    requires |rows| >= 1
    requires RowsCalls(rows[..|rows| - 1]) == []
    requires RowCall(rows[|rows| - 1]) == Some(call)
    ensures RowsCalls(rows) == [call]
  {
  }

  /**
   * The example file makes exactly one call, for https://twitter.com: the
   * header, the comments and the blank row make none.
   */
  lemma ExampleFileCalls()
    ensures CookieFileCalls(ExampleFile) == Ok([SetCookieCall(ExampleCookie, "https://" + "twitter.com")])
  {
    ExampleHeaderPlain();
    ExampleLinkPlain();
    ExampleNoticePlain();
    ExampleRowCall();
    LeadingHashIsComment(ExampleHeader);
    LeadingHashIsComment(ExampleLink);
    LeadingHashIsComment(ExampleNotice);
    assert RowCall("").None?;
    assert HasMagic(ExampleHeader);
    FiveRowFile(ExampleHeader, ExampleLink, ExampleNotice, "", ExampleRow);
    FiveRowCalls(ExampleLines, SetCookieCall(ExampleCookie, "https://" + "twitter.com"));
  }

  // ---------------------------------------------------------------------------
  // The parser
  // ---------------------------------------------------------------------------

  /** One turn of the attribute loop: the text `a` adds to the cookie string. */
  method AppendAttribute(cookie: string, a: Attr) returns (s: string)
    ensures s == cookie + RenderAttr(a)
  {
    s := cookie;
    if a.value.Flag? {
      if a.value.on {
        s := s + "; " + a.name;
      }
    } else if a.value.Moment? {
      s := s + "; " + a.name + "=" + ToUtcString(a.value.time);
    } else {
      s := s + "; " + a.name + "=" + Interpolated(a.value.text);
    }
  }

  /** The attribute loop: every attribute's text, in insertion order. */
  method AppendAttributes(cookie: string, attrs: seq<Attr>) returns (s: string)
    ensures s == cookie + RenderAttrs(attrs)
  {
    s := cookie;
    var j := 0;
    assert attrs[..0] == [];
    while j < |attrs|
      invariant 0 <= j <= |attrs|
      invariant s == cookie + RenderAttrs(attrs[..j])
    {
      RenderAttrsSnoc(attrs, j);
      ConcatAssoc(cookie, RenderAttrs(attrs[..j]), RenderAttr(attrs[j]));
      s := AppendAttribute(s, attrs[j]);
      j := j + 1;
    }
    assert attrs[..j] == attrs;
  }

  /** The `attrs` object of a row, its properties in the order they are assigned. */
  method SetAttributes(raw: string, fields: seq<string>) returns (attrs: seq<Attr>)
    requires |fields| >= 1
    ensures attrs == RowAttributes(raw, fields)
  {
    attrs := [];
    if StartsWith(raw, "#HttpOnly_") {
      attrs := [Attr("HttpOnly", Flag(true))];
    }
    attrs := attrs + [Attr("Domain", Value(Some(fields[0])))];
    attrs := attrs + [Attr("Path", Value(Field(fields, 2)))];
    attrs := attrs + [Attr("Expires", Moment(ExpiryTime(Field(fields, 4))))];
    if Field(fields, 3) == Some("TRUE") {
      attrs := attrs + [Attr("Secure", Flag(true))];
    }
  }

  /** `cookieString` before the attributes: `value`, or `name=value`. */
  method StartCookie(name: Option<string>, value: Option<string>) returns (cookie: string)
    ensures cookie == CookieHead(name, value)
  {
    cookie := "";
    if name == Some("") {
      cookie := cookie + Interpolated(value);
    } else {
      cookie := cookie + Interpolated(name) + "=" + Interpolated(value);
    }
  }

  /**
   * The part of the row loop after the skip test: the attributes, the
   * cookie string and the URL.
   */
  method CookieForRow(raw: string, fields: seq<string>) returns (cookie: string, url: string)
    requires |fields| >= 1
    ensures cookie == CookieHead(Field(fields, 5), Field(fields, 6)) + RenderAttrs(RowAttributes(raw, fields))
    ensures url == CookieUrl(fields[0])
  {
    var domain := fields[0];
    var attrs := SetAttributes(raw, fields);
    cookie := StartCookie(Field(fields, 5), Field(fields, 6));
    cookie := AppendAttributes(cookie, attrs);
    url := "https://" + (if StartsWith(domain, ".") then domain[1..] else domain);
  }

  /** The body of the row loop, for one row. */
  method ReadRow(jar: CookieJar, raw: string)
    modifies jar
    ensures jar.calls == old(jar.calls) + (if RowCall(raw).Some? then [RowCall(raw).value] else [])
  {
    var row := raw;
    if EndsWith(row, "\n") {
      row := row[..|row| - 1];
    }
    if StartsWith(row, "#") || Trim(row) == [] {
      return;
    }
    var fields := Split(row, "\t");
    var cookie, url := CookieForRow(raw, fields);
    jar.SetCookie(cookie, url);
  }

  /** `parseMozillaCookies(jar, content)`; `Err` when it throws. */
  method ParseMozillaCookies(jar: CookieJar, content: string) returns (r: Result<(), TypeError>)
    modifies jar
    ensures match CookieFileCalls(content)
      case Err(e) => r == Err(e) && jar.calls == old(jar.calls)
      case Ok(calls) => r == Ok(()) && jar.calls == old(jar.calls) + calls
  {
    if !HasMagic(content) {
      return Err(TypeError(NotCookieFileMessage));
    }
    var rows := SplitRows(content);
    var i := 0;
    assert rows[..0] == [];
    while i < |rows|
      invariant 0 <= i <= |rows|
      invariant jar.calls == old(jar.calls) + RowsCalls(rows[..i])
    {
      RowsCallsSnoc(rows, i);
      ConcatAssoc(old(jar.calls), RowsCalls(rows[..i]),
        if RowCall(rows[i]).Some? then [RowCall(rows[i]).value] else []);
      ReadRow(jar, rows[i]);
      i := i + 1;
    }
    assert rows[..i] == rows;
    r := Ok(());
  }
}
