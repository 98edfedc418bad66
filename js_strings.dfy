/**
 * The ECMAScript string operations the feed pipeline and the cookie parser use,
 * on strings modelled as sequences of characters: `startsWith`, `endsWith`,
 * `split` with a string separator, `join`, `replaceAll` and `replace` with a
 * string pattern, `trim` and `toLowerCase`.
 */
module JsStrings {

  /** `s.startsWith(p)`. */
  predicate StartsWith(s: string, p: string)
  {
    p <= s
  }

  /** A prefix of `s` stays a prefix when text is appended to `s`. */
  lemma PrefixExtends(s: string, p: string, t: string)
    requires StartsWith(s, p)
    ensures StartsWith(s + t, p)
  {
    assert (s + t)[..|p|] == s[..|p|];
  }

  /** `s.endsWith(p)`. */
  predicate EndsWith(s: string, p: string)
  {
    |p| <= |s| && s[|s| - |p|..] == p
  }

  /** `pat` occurs in `s` starting at index `i`. */
  predicate OccursAt(s: string, pat: string, i: nat)
  {
    i + |pat| <= |s| && s[i..i + |pat|] == pat
  }

  /** `s.includes(pat)`. */
  ghost predicate Contains(s: string, pat: string)
  {
    exists i: nat :: OccursAt(s, pat, i)
  }

  // ---------------------------------------------------------------------------
  // split and join
  // ---------------------------------------------------------------------------

  /**
   * `s.split(sep)` for a non-empty separator: the pieces between the leftmost
   * non-overlapping occurrences of `sep`, scanning from the left. Like
   * ECMAScript, the empty string splits into one empty piece.
   */
  function Split(s: string, sep: string): (parts: seq<string>)
    requires sep != []
    ensures |parts| >= 1
    decreases |s|
  {
    if s == [] then [[]]
    else if sep <= s then [[]] + Split(s[|sep|..], sep)
    else
      var rest := Split(s[1..], sep);
      [[s[0]] + rest[0]] + rest[1..]
  }

  /** Splitting on a character absent from the text gives the text back as the only piece. */
  lemma {:induction false} SplitCharAbsent(s: string, c: char)
    requires c !in s
    ensures Split(s, [c]) == [s]
    decreases |s|
  {
    if s != [] {
      assert s[0] != c;
      SplitCharAbsent(s[1..], c);
      assert [s[0]] + s[1..] == s;
    }
  }

  /** The first occurrence of a one-character separator ends the first piece. */
  lemma {:induction false} SplitCharConcat(a: string, c: char, b: string)
    requires c !in a
    ensures Split(a + [c] + b, [c]) == [a] + Split(b, [c])
    decreases |a|
  {
    var s := a + [c] + b;
    if a == [] {
      assert s == [c] + b;
      assert s[1..] == b;
    } else {
      assert s[0] == a[0] && a[0] != c;
      assert s[1..] == a[1..] + [c] + b;
      SplitCharConcat(a[1..], c, b);
      assert [a[0]] + a[1..] == a;
    }
  }

  /** Concatenation regroups freely; stated once so proofs need not rederive it elementwise. */
  lemma ConcatAssoc<T>(a: seq<T>, b: seq<T>, c: seq<T>)
    ensures (a + b) + c == a + (b + c)
  {
  }

  /** `parts.join(sep)`. */
  function Join(parts: seq<string>, sep: string): string
    requires |parts| >= 1
  {
    if |parts| == 1 then parts[0] else parts[0] + sep + Join(parts[1..], sep)
  }

  /** Pieces free of a one-character separator, joined by it, split back into the same pieces. */
  lemma {:induction false} SplitJoinChar(parts: seq<string>, c: char)
    requires |parts| >= 1
    requires forall i :: 0 <= i < |parts| ==> c !in parts[i]
    ensures Split(Join(parts, [c]), [c]) == parts
    decreases |parts|
  {
    if |parts| == 1 {
      SplitCharAbsent(parts[0], c);
    } else {
      SplitCharConcat(parts[0], c, Join(parts[1..], [c]));
      SplitJoinChar(parts[1..], c);
      assert [parts[0]] + parts[1..] == parts;
    }
  }

  /** A character in neither the pieces nor the separator is not in their join. */
  lemma {:induction false} JoinAvoids(parts: seq<string>, sep: string, c: char)
    requires |parts| >= 1
    requires c !in sep
    requires forall i :: 0 <= i < |parts| ==> c !in parts[i]
    ensures c !in Join(parts, sep)
    decreases |parts|
  {
    if |parts| > 1 {
      JoinAvoids(parts[1..], sep, c);
    }
  }

  /** The first piece of `s.split(sep)`, which is what `s.split(sep)[0]` reads. */
  function FirstPiece(s: string, sep: string): (r: string)
    requires sep != []
    ensures r <= s
    ensures !Contains(r, sep)
    ensures r == s || sep <= s[|r|..]
  {
    SplitHead(s, sep);
    Split(s, sep)[0]
  }

  lemma {:induction false} JoinConsChar(c: char, rest: seq<string>, sep: string)
    requires |rest| >= 1
    ensures Join([[c] + rest[0]] + rest[1..], sep) == [c] + Join(rest, sep)
  {
    var parts := [[c] + rest[0]] + rest[1..];
    if |rest| > 1 {
      assert parts[1..] == rest[1..];
    }
  }

  /** Characterises the first piece of a split: the longest prefix free of `sep`. */
  lemma {:induction false} SplitHead(s: string, sep: string)
    requires sep != []
    ensures Split(s, sep)[0] <= s
    ensures !Contains(Split(s, sep)[0], sep)
    ensures Split(s, sep)[0] == s || sep <= s[|Split(s, sep)[0]|..]
    decreases |s|
  {
    if s == [] {
      NothingInEmpty(sep);
    } else if sep <= s {
      NothingInEmpty(sep);
    } else {
      var r0 := Split(s[1..], sep)[0];
      SplitHead(s[1..], sep);
      var r := [s[0]] + r0;
      assert Split(s, sep)[0] == r;
      assert r <= s;
      if r != s {
        assert r0 != s[1..];
        assert s[|r|..] == s[1..][|r0|..];
      }
      assert !(sep <= r);
      FreeCons(s[0], r0, sep);
    }
  }

  /** A character put in front of a `sep`-free text adds no occurrence except at the front. */
  lemma FreeCons(c: char, t: string, sep: string)
    requires !Contains(t, sep) && !(sep <= [c] + t)
    ensures !Contains([c] + t, sep)
  {
    var r := [c] + t;
    forall i: nat | OccursAt(r, sep, i)
      ensures false
    {
      if i > 0 {
        assert r[1..] == t;
        assert r[i..i + |sep|] == r[1..][i - 1..i - 1 + |sep|];
        assert OccursAt(t, sep, i - 1);
      }
    }
  }

  lemma NothingInEmpty(sep: string)
    requires sep != []
    ensures !Contains([], sep)
  {
  }

  /** Every piece of a split is free of the separator. */
  lemma {:induction false} SplitPiecesFree(s: string, sep: string)
    requires sep != []
    ensures forall k :: 0 <= k < |Split(s, sep)| ==> !Contains(Split(s, sep)[k], sep)
    decreases |s|
  {
    var parts := Split(s, sep);
    SplitHead(s, sep);
    if s == [] {
    } else if sep <= s {
      SplitPiecesFree(s[|sep|..], sep);
      assert forall k :: 1 <= k < |parts| ==> parts[k] == Split(s[|sep|..], sep)[k - 1];
    } else {
      SplitPiecesFree(s[1..], sep);
      assert forall k :: 1 <= k < |parts| ==> parts[k] == Split(s[1..], sep)[k];
    }
  }

  // ---------------------------------------------------------------------------
  // replaceAll and replace
  // ---------------------------------------------------------------------------

  /** `s.replaceAll("", rep)`: `rep` before every character and at the end. */
  function InsertEverywhere(s: string, rep: string): string
  {
    if s == [] then rep else rep + [s[0]] + InsertEverywhere(s[1..], rep)
  }

  /**
   * `s.replaceAll(pat, rep)` with a string pattern and a replacement free of
   * `$` substitution patterns: every leftmost non-overlapping occurrence of
   * `pat` is replaced.
   */
  function ReplaceAll(s: string, pat: string, rep: string): string
    decreases |s|
  {
    if pat == [] then InsertEverywhere(s, rep)
    else if s == [] then []
    else if pat <= s then rep + ReplaceAll(s[|pat|..], pat, rep)
    else [s[0]] + ReplaceAll(s[1..], pat, rep)
  }

  /** `s.replace(pat, rep)` with a string pattern: only the first occurrence. */
  function ReplaceFirst(s: string, pat: string, rep: string): string
    decreases |s|
  {
    if pat <= s then rep + s[|pat|..]
    else if s == [] then []
    else [s[0]] + ReplaceFirst(s[1..], pat, rep)
  }

  /** `s.replaceAll(pat, rep) == s.split(pat).join(rep)`: every occurrence goes. */
  lemma {:induction false} ReplaceAllIsSplitJoin(s: string, pat: string, rep: string)
    requires pat != []
    ensures ReplaceAll(s, pat, rep) == Join(Split(s, pat), rep)
    decreases |s|
  {
    if s == [] {
    } else if pat <= s {
      ReplaceAllIsSplitJoin(s[|pat|..], pat, rep);
      var parts := [[]] + Split(s[|pat|..], pat);
      assert parts[1..] == Split(s[|pat|..], pat);
    } else {
      ReplaceAllIsSplitJoin(s[1..], pat, rep);
      JoinConsChar(s[0], Split(s[1..], pat), rep);
    }
  }

  /** Replacing a pattern by itself changes nothing. */
  lemma {:induction false} ReplaceAllSelf(s: string, pat: string)
    requires pat != []
    ensures ReplaceAll(s, pat, pat) == s
    decreases |s|
  {
    if s == [] {
    } else if pat <= s {
      ReplaceAllSelf(s[|pat|..], pat);
      assert pat + s[|pat|..] == s;
    } else {
      ReplaceAllSelf(s[1..], pat);
      assert [s[0]] + s[1..] == s;
    }
  }

  /** Joining the pieces of a split with the separator gives back the string. */
  lemma SplitJoinRoundTrip(s: string, sep: string)
    requires sep != []
    ensures Join(Split(s, sep), sep) == s
  {
    ReplaceAllIsSplitJoin(s, sep, sep);
    ReplaceAllSelf(s, sep);
  }

  /** A split has more than one piece exactly when the separator occurs. */
  lemma SplitSingleIff(s: string, sep: string)
    requires sep != []
    ensures |Split(s, sep)| == 1 <==> !Contains(s, sep)
  {
    var parts := Split(s, sep);
    SplitHead(s, sep);
    SplitJoinRoundTrip(s, sep);
    if |parts| == 1 {
      assert parts[0] == s;
    } else {
      assert s == parts[0] + sep + Join(parts[1..], sep);
      assert parts[0] != s;
      assert OccursAt(s, sep, |parts[0]|);
    }
  }

  /**
   * `s.replace(pat, rep)` replaces exactly the first occurrence when there is
   * one and leaves `s` unchanged otherwise.
   */
  lemma {:induction false} ReplaceFirstSplit(s: string, pat: string, rep: string)
    requires pat != []
    ensures var parts := Split(s, pat);
      ReplaceFirst(s, pat, rep)
        == if |parts| == 1 then s else parts[0] + rep + Join(parts[1..], pat)
    decreases |s|
  {
    if s == [] {
      assert Split(s, pat) == [[]];
    } else if pat <= s {
      ReplaceFirstAtStart(s, pat, rep);
    } else {
      ReplaceFirstSplit(s[1..], pat, rep);
      ReplaceFirstLater(s, pat, rep);
    }
  }

  lemma ReplaceFirstAtStart(s: string, pat: string, rep: string)
    requires pat != [] && pat <= s
    ensures var parts := Split(s, pat);
      |parts| > 1 && ReplaceFirst(s, pat, rep) == parts[0] + rep + Join(parts[1..], pat)
  {
    var after := s[|pat|..];
    var tail := Split(after, pat);
    SplitJoinRoundTrip(after, pat);
    SplitAtStart(s, pat);
    assert [] + rep == rep;
  }

  /** A text that starts with the separator splits into an empty piece and the pieces after it. */
  lemma SplitAtStart(s: string, pat: string)
    requires pat != [] && pat <= s
    ensures var parts := Split(s, pat);
      |parts| > 1 && parts[0] == [] && parts[1..] == Split(s[|pat|..], pat)
  {
    var tail := Split(s[|pat|..], pat);
    assert Split(s, pat) == [[]] + tail;
    assert ([[]] + tail)[1..] == tail;
  }

  /** The step of `ReplaceFirstSplit` past a first character that starts no match. */
  lemma ReplaceFirstLater(s: string, pat: string, rep: string)
    requires pat != [] && s != [] && !(pat <= s)
    requires var rest := Split(s[1..], pat);
      ReplaceFirst(s[1..], pat, rep)
        == if |rest| == 1 then s[1..] else rest[0] + rep + Join(rest[1..], pat)
    ensures var parts := Split(s, pat);
      ReplaceFirst(s, pat, rep)
        == if |parts| == 1 then s else parts[0] + rep + Join(parts[1..], pat)
  {
    var parts := Split(s, pat);
    var rest := Split(s[1..], pat);
    assert parts == [[s[0]] + rest[0]] + rest[1..];
    assert ReplaceFirst(s, pat, rep) == [s[0]] + ReplaceFirst(s[1..], pat, rep);
    if |rest| == 1 {
      assert [s[0]] + s[1..] == s;
    } else {
      assert parts[1..] == rest[1..];
      ConcatAssoc([s[0]], rest[0] + rep, Join(rest[1..], pat));
      ConcatAssoc([s[0]], rest[0], rep);
    }
  }

  /** Replacing with the empty pattern and the empty replacement is the identity. */
  lemma {:induction false} ReplaceEmptyByEmpty(s: string)
    ensures ReplaceAll(s, [], []) == s
    decreases |s|
  {
    if s != [] {
      ReplaceEmptyByEmpty(s[1..]);
      assert [s[0]] + s[1..] == s;
    }
  }

  /** Without an occurrence of the pattern, `replaceAll` changes nothing. */
  lemma {:induction false} ReplaceAllAbsent(s: string, pat: string, rep: string)
    requires pat != [] && !Contains(s, pat)
    ensures ReplaceAll(s, pat, rep) == s
    decreases |s|
  {
    if s != [] {
      assert !OccursAt(s, pat, 0);
      forall i: nat | OccursAt(s[1..], pat, i) ensures false {
        assert s[1..][i..i + |pat|] == s[i + 1..i + 1 + |pat|];
        assert OccursAt(s, pat, i + 1);
      }
      ReplaceAllAbsent(s[1..], pat, rep);
      assert [s[0]] + s[1..] == s;
    }
  }

  /**
   * A suffix `y` that holds no occurrence of `pat`, and whose first character
   * `pat` does not contain (so that no occurrence straddles the two parts),
   * passes through `replaceAll` untouched.
   */
  lemma {:induction false} ReplaceAllKeepsSuffix(x: string, y: string, pat: string, rep: string)
    requires pat != [] && !Contains(y, pat)
    requires y == [] || y[0] !in pat
    ensures ReplaceAll(x + y, pat, rep) == ReplaceAll(x, pat, rep) + y
    decreases |x|
  {
    if x == [] {
      assert x + y == y;
      ReplaceAllAbsent(y, pat, rep);
    } else {
      var s := x + y;
      assert s[0] == x[0];
      if pat <= s {
        if |pat| > |x| {
          assert OccursAt(s, pat, 0);
          StraddleChar(x, y, pat, 0);
          assert false;
        }
        assert pat <= x;
        var x' := x[|pat|..];
        assert s[|pat|..] == x' + y;
        ReplaceAllKeepsSuffix(x', y, pat, rep);
        assert ReplaceAll(s, pat, rep) == rep + (ReplaceAll(x', pat, rep) + y);
        assert ReplaceAll(x, pat, rep) == rep + ReplaceAll(x', pat, rep);
        ConcatAssoc(rep, ReplaceAll(x', pat, rep), y);
      } else {
        if pat <= x {
          PrefixOfPrefix(pat, x, y);
          assert false;
        }
        var x' := x[1..];
        assert s[1..] == x' + y;
        ReplaceAllKeepsSuffix(x', y, pat, rep);
        assert ReplaceAll(s, pat, rep) == [x[0]] + (ReplaceAll(x', pat, rep) + y);
        assert ReplaceAll(x, pat, rep) == [x[0]] + ReplaceAll(x', pat, rep);
        ConcatAssoc([x[0]], ReplaceAll(x', pat, rep), y);
      }
    }
  }

  /** An occurrence that starts in `x` and ends in `y` holds `y`'s first character. */
  lemma StraddleChar(x: string, y: string, pat: string, i: nat)
    requires OccursAt(x + y, pat, i) && i < |x| < i + |pat|
    ensures y != [] && y[0] in pat
  {
    assert (x + y)[i..i + |pat|][|x| - i] == y[0];
  }

  lemma PrefixOfPrefix(pat: string, x: string, y: string)
    requires pat <= x
    ensures pat <= x + y
  {
  }

  /**
   * Two parts free of `pat` stay free of it when joined, provided the second
   * part starts with a character `pat` does not contain.
   */
  lemma NotContainsConcat(a: string, b: string, pat: string)
    requires pat != [] && !Contains(a, pat) && !Contains(b, pat)
    requires b == [] || b[0] !in pat
    ensures !Contains(a + b, pat)
  {
    forall i: nat | OccursAt(a + b, pat, i) ensures false {
      var s := a + b;
      if i + |pat| <= |a| {
        assert s[i..i + |pat|] == a[i..i + |pat|];
        assert OccursAt(a, pat, i);
      } else if i >= |a| {
        assert s[i..i + |pat|] == b[i - |a|..i - |a| + |pat|];
        assert OccursAt(b, pat, i - |a|);
      } else {
        StraddleChar(a, b, pat, i);
      }
    }
  }

  // ---------------------------------------------------------------------------
  // single-character replacement
  // ---------------------------------------------------------------------------

  /** Every `c` in `s` replaced by `rep`, character by character. */
  function ReplaceChar(s: string, c: char, rep: string): string
  {
    if s == [] then [] else (if s[0] == c then rep else [s[0]]) + ReplaceChar(s[1..], c, rep)
  }

  /** With a one-character pattern, `replaceAll` is a character-by-character map. */
  lemma {:induction false} ReplaceAllOneChar(s: string, c: char, rep: string)
    ensures ReplaceAll(s, [c], rep) == ReplaceChar(s, c, rep)
    decreases |s|
  {
    if s != [] {
      ReplaceAllOneChar(s[1..], c, rep);
      assert [c] <= s <==> s[0] == c;
    }
  }

  lemma {:induction false} ReplaceCharAbsent(s: string, c: char, rep: string)
    requires forall i :: 0 <= i < |s| ==> s[i] != c
    ensures ReplaceChar(s, c, rep) == s
    decreases |s|
  {
    if s != [] {
      ReplaceCharAbsent(s[1..], c, rep);
      assert [s[0]] + s[1..] == s;
    }
  }

  lemma {:induction false} ReplaceCharAppend(a: string, b: string, c: char, rep: string)
    ensures ReplaceChar(a + b, c, rep) == ReplaceChar(a, c, rep) + ReplaceChar(b, c, rep)
    decreases |a|
  {
    if a == [] {
      assert a + b == b;
    } else {
      assert (a + b)[1..] == a[1..] + b;
      ReplaceCharAppend(a[1..], b, c, rep);
    }
  }

  // ---------------------------------------------------------------------------
  // trim
  // ---------------------------------------------------------------------------

  /**
   * ECMAScript WhiteSpace and LineTerminator code points, which `trim` and
   * `Number` strip: TAB, VT, FF, SP, NBSP, ZWNBSP, the other Zs space
   * separators, LF, CR, LINE SEPARATOR and PARAGRAPH SEPARATOR.
   */
  predicate IsWhitespace(c: char)
  {
    || c == '\t' || c == '\U{000B}' || c == '\U{000C}' || c == ' ' || c == '\U{00A0}'
    || c == '\U{FEFF}' || c == '\U{1680}' || ('\U{2000}' <= c <= '\U{200A}')
    || c == '\U{202F}' || c == '\U{205F}' || c == '\U{3000}'
    || c == '\n' || c == '\r' || c == '\U{2028}' || c == '\U{2029}'
  }

  /** `s.trimStart()`: drops the leading whitespace and nothing else. */
  function TrimStart(s: string): (r: string)
    ensures |r| <= |s| && r == s[|s| - |r|..]
    ensures forall k :: 0 <= k < |s| - |r| ==> IsWhitespace(s[k])
    ensures r == [] || !IsWhitespace(r[0])
    decreases |s|
  {
    if s != [] && IsWhitespace(s[0]) then TrimStart(s[1..]) else s
  }

  /** `s.trimEnd()`: drops the trailing whitespace and nothing else. */
  function TrimEnd(s: string): (r: string)
    ensures |r| <= |s| && r == s[..|r|]
    ensures forall k :: |r| <= k < |s| ==> IsWhitespace(s[k])
    ensures r == [] || !IsWhitespace(r[|r| - 1])
    decreases |s|
  {
    if s != [] && IsWhitespace(s[|s| - 1]) then TrimEnd(s[..|s| - 1]) else s
  }

  /** `s.trim()`. */
  function Trim(s: string): string
  {
    TrimEnd(TrimStart(s))
  }

  /**
   * `trim` keeps a contiguous middle part of `s`, and what it drops after
   * that part is whitespace (what it drops before it is, by `TrimStart`).
   */
  lemma TrimSlice(s: string)
    ensures var i := |s| - |TrimStart(s)|; var r := Trim(s);
      && i + |r| <= |s| && r == s[i..i + |r|]
      && (forall k :: i + |r| <= k < |s| ==> IsWhitespace(s[k]))
  {
    var t := TrimStart(s);
    var i := |s| - |t|;
    TrimEndOfSuffix(s, i, t);
    assert Trim(s) == TrimEnd(t);
  }

  lemma TakeOfDrop<T>(s: seq<T>, i: nat, n: nat)
    requires i + n <= |s|
    ensures s[i..][..n] == s[i..i + n]
  {
  }

  /** What `trim` keeps neither starts nor ends with whitespace. */
  lemma TrimEdges(s: string)
    ensures var r := Trim(s);
      r == [] || (!IsWhitespace(r[0]) && !IsWhitespace(r[|r| - 1]))
  {
    var t := TrimStart(s);
    var r := TrimEnd(t);
    if r != [] {
      assert r[0] == t[0];
    }
  }

  /** `trimEnd` of a suffix of `s` keeps a slice of `s` and drops only whitespace. */
  lemma TrimEndOfSuffix(s: string, i: nat, t: string)
    requires i <= |s| && t == s[i..]
    ensures var r := TrimEnd(t);
      && i + |r| <= |s| && r == s[i..i + |r|]
      && (forall k :: i + |r| <= k < |s| ==> IsWhitespace(s[k]))
  {
    var r := TrimEnd(t);
    TakeOfDrop(s, i, |r|);
    forall k | i + |r| <= k < |s| ensures IsWhitespace(s[k]) {
      assert s[k] == t[k - i];
    }
  }

  /** Trimming twice is trimming once. */
  lemma TrimIdempotent(s: string)
    ensures Trim(Trim(s)) == Trim(s)
  {
    TrimEdges(s);
    var r := Trim(s);
    if r != [] {
      assert TrimStart(r) == r;
      assert TrimEnd(r) == r;
    }
  }

  // ---------------------------------------------------------------------------
  // toLowerCase
  // ---------------------------------------------------------------------------

  function LowerChar(c: char): char
  {
    if 'A' <= c <= 'Z' then (c as int - 'A' as int + 'a' as int) as char else c
  }

  /** `s.toLowerCase()` on the ASCII letters. */
  function ToLower(s: string): (r: string)
    ensures |r| == |s|
    ensures forall i :: 0 <= i < |s| ==> !('A' <= r[i] <= 'Z')
    ensures forall i :: 0 <= i < |s| ==> r[i] == s[i] || 'A' <= s[i] <= 'Z'
  {
    seq(|s|, i requires 0 <= i < |s| => LowerChar(s[i]))
  }

  /** Lower-casing is idempotent, so a handle and its lower-cased form share a cache key. */
  lemma ToLowerIdempotent(s: string)
    ensures ToLower(ToLower(s)) == ToLower(s)
  {
  }
}
