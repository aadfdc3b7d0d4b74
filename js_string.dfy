/** The optional value used wherever the source has `null` or `undefined`. */
module Options {
  datatype Option<+T> = None | Some(value: T) {
    function GetOr(default: T): T {
      match this
      case Some(v) => v
      case None => default
    }
  }
}

/**
 * The JavaScript string built-ins the catalogue relies on: `trim`,
 * `toLowerCase`, `includes`, `startsWith` and `Array.prototype.join`.
 */
module JsString {

  /** WhiteSpace and LineTerminator code points, the set `String.prototype.trim` removes. */
  predicate IsWhiteSpace(c: char) {
    || c == '\t' || c == '\n' || c == '\U{000B}' || c == '\U{000C}' || c == '\r'
    || c == ' ' || c == '\U{00A0}' || c == '\U{1680}'
    || ('\U{2000}' <= c <= '\U{200A}')
    || c == '\U{2028}' || c == '\U{2029}' || c == '\U{202F}' || c == '\U{205F}'
    || c == '\U{3000}' || c == '\U{FEFF}'
  }

  predicate AllWhiteSpace(s: string) {
    forall i :: 0 <= i < |s| ==> IsWhiteSpace(s[i])
  }

  /** Removes the leading white space: the result is the longest suffix not starting with it. */
  function TrimStart(s: string): (r: string)
    ensures |r| <= |s| && r == s[|s| - |r|..]
    ensures forall i :: 0 <= i < |s| - |r| ==> IsWhiteSpace(s[i])
    ensures r == [] || !IsWhiteSpace(r[0])
  {
    if |s| > 0 && IsWhiteSpace(s[0]) then
      var r := TrimStart(s[1..]);
      assert s[1..][|s| - 1 - |r|..] == s[|s| - |r|..];
      r
    else s
  }

  /** Removes the trailing white space: the result is the longest prefix not ending with it. */
  function TrimEnd(s: string): (r: string)
    ensures |r| <= |s| && r == s[..|r|]
    ensures forall i :: |r| <= i < |s| ==> IsWhiteSpace(s[i])
    ensures r == [] || !IsWhiteSpace(r[|r| - 1])
  {
    if |s| > 0 && IsWhiteSpace(s[|s| - 1]) then
      var r := TrimEnd(s[..|s| - 1]);
      assert s[..|s| - 1][..|r|] == s[..|r|];
      r
    else s
  }

  /** `s.trim()` */
  function Trim(s: string): string {
    TrimEnd(TrimStart(s))
  }

  /**
   * `toLowerCase` on one code point: ASCII A-Z and the Latin-1 capitals
   * U+00C0..U+00DE (except the multiplication sign U+00D7) move to their
   * lower-case letter; every other code point is left as it is.
   */
  function ToLowerCaseChar(c: char): char {
    if 'A' <= c <= 'Z' || ('\U{00C0}' <= c <= '\U{00DE}' && c != '\U{00D7}')
    then (c as int + 32) as char
    else c
  }

  /** `s.toLowerCase()`, code point by code point. */
  function ToLowerCase(s: string): (r: string)
    ensures |r| == |s|
    ensures forall i :: 0 <= i < |s| ==> r[i] == ToLowerCaseChar(s[i])
  {
    if s == [] then [] else [ToLowerCaseChar(s[0])] + ToLowerCase(s[1..])
  }

  /** `s.startsWith(prefix)` */
  predicate StartsWith(s: string, prefix: string) {
    prefix <= s
  }

  /** `s.includes(needle)`: some position of `s` starts with `needle`. */
  predicate Includes(s: string, needle: string)
    decreases |s|
  {
    StartsWith(s, needle) || (|s| > 0 && Includes(s[1..], needle))
  }

  /** `parts.join(sep)` */
  function Join(parts: seq<string>, sep: string): string {
    if |parts| == 0 then ""
    else if |parts| == 1 then parts[0]
    else parts[0] + sep + Join(parts[1..], sep)
  }

  // ---------------------------------------------------------------------
  // Lemmas

  /** Lower-casing never changes a code point's white-space-ness. */
  lemma LowerKeepsWhiteSpace(c: char)
    ensures IsWhiteSpace(ToLowerCaseChar(c)) <==> IsWhiteSpace(c)
  {
  }

  lemma {:induction false} LowerIdempotent(s: string)
    ensures ToLowerCase(ToLowerCase(s)) == ToLowerCase(s)
  {
    if s != [] {
      LowerIdempotent(s[1..]);
    }
  }

  lemma {:induction false} LowerDistributes(a: string, b: string)
    ensures ToLowerCase(a + b) == ToLowerCase(a) + ToLowerCase(b)
  {
    if a != [] {
      LowerDistributes(a[1..], b);
      assert (a + b)[1..] == a[1..] + b;
    }
  }

  /** A string of white space only trims to the empty string, and only such strings do. */
  lemma TrimEmptyIffAllWhiteSpace(s: string)
    ensures Trim(s) == "" <==> AllWhiteSpace(s)
  {
    var t := TrimStart(s);
    if t != [] {
      assert t[0] == s[|s| - |t|];
    } else {
      assert s[..|s|] == s;
    }
  }

  /** Trimming then lower-casing equals lower-casing then trimming. */
  lemma {:induction false} TrimStartLowerCommute(s: string)
    ensures TrimStart(ToLowerCase(s)) == ToLowerCase(TrimStart(s))
  {
    if s != [] {
      LowerKeepsWhiteSpace(s[0]);
      assert ToLowerCase(s)[1..] == ToLowerCase(s[1..]);
      TrimStartLowerCommute(s[1..]);
    }
  }

  lemma {:induction false} TrimEndLowerCommute(s: string)
    ensures TrimEnd(ToLowerCase(s)) == ToLowerCase(TrimEnd(s))
  {
    if s != [] {
      var n := |s| - 1;
      LowerKeepsWhiteSpace(s[n]);
      LowerDistributes(s[..n], [s[n]]);
      assert s[..n] + [s[n]] == s;
      assert ToLowerCase(s)[..n] == ToLowerCase(s[..n]);
      TrimEndLowerCommute(s[..n]);
    }
  }

  lemma TrimLowerCommute(s: string)
    ensures Trim(ToLowerCase(s)) == ToLowerCase(Trim(s))
  {
    TrimStartLowerCommute(s);
    TrimEndLowerCommute(TrimStart(s));
  }

  /** Trimming twice is trimming once. */
  lemma TrimIdempotent(s: string)
    ensures Trim(Trim(s)) == Trim(s)
  {
    var t := Trim(s);
    if t != [] {
      assert TrimStart(s)[..|t|] == t;
      assert TrimStart(t) == t;
    }
  }

  lemma {:induction false} TrimStartSkipsWhiteSpace(w: string, x: string)
    requires AllWhiteSpace(w)
    ensures TrimStart(w + x) == TrimStart(x)
  {
    if w == [] {
      assert w + x == x;
    } else {
      assert (w + x)[1..] == w[1..] + x;
      TrimStartSkipsWhiteSpace(w[1..], x);
    }
  }

  lemma {:induction false} TrimEndSkipsWhiteSpace(x: string, w: string)
    requires AllWhiteSpace(w)
    ensures TrimEnd(x + w) == TrimEnd(x)
  {
    if w == [] {
      assert x + w == x;
    } else {
      var n := |w| - 1;
      assert (x + w)[..|x + w| - 1] == x + w[..n];
      TrimEndSkipsWhiteSpace(x, w[..n]);
    }
  }

  lemma {:induction false} TrimStartAppend(s: string, w: string)
    ensures TrimStart(s + w) == if TrimStart(s) == [] then TrimStart(w) else TrimStart(s) + w
  {
    if s == [] {
      assert s + w == w;
    } else if IsWhiteSpace(s[0]) {
      assert (s + w)[1..] == s[1..] + w;
      TrimStartAppend(s[1..], w);
    }
  }

  /** White space around a string does not change what it trims to. */
  lemma TrimIgnoresPadding(before: string, s: string, after: string)
    requires AllWhiteSpace(before) && AllWhiteSpace(after)
    ensures Trim(before + s + after) == Trim(s)
  {
    assert before + s + after == before + (s + after);
    TrimStartSkipsWhiteSpace(before, s + after);
    TrimStartAppend(s, after);
    if TrimStart(s) == [] {
      TrimStartSkipsWhiteSpace(after, []);
      assert after + [] == after;
    } else {
      TrimEndSkipsWhiteSpace(TrimStart(s), after);
    }
  }

  lemma {:induction false} IncludesInLeft(a: string, b: string, needle: string)
    requires Includes(a, needle)
    ensures Includes(a + b, needle)
    decreases |a|
  {
    if !StartsWith(a, needle) {
      assert (a + b)[1..] == a[1..] + b;
      IncludesInLeft(a[1..], b, needle);
    }
  }

  lemma {:induction false} IncludesInRight(a: string, b: string, needle: string)
    requires Includes(b, needle)
    ensures Includes(a + b, needle)
    decreases |a|
  {
    if a == [] {
      assert a + b == b;
    } else {
      assert (a + b)[1..] == a[1..] + b;
      IncludesInRight(a[1..], b, needle);
    }
  }

  /**
   * A needle without the separator character that occurs in `a + sep + b`
   * occurs in `a` or in `b`: no occurrence straddles the separator.
   */
  lemma {:induction false} IncludesAcrossSeparator(a: string, sep: char, b: string, needle: string)
    requires needle != [] && sep !in needle
    requires Includes(a + [sep] + b, needle)
    ensures Includes(a, needle) || Includes(b, needle)
    decreases |a|
  {
    var s := a + [sep] + b;
    if StartsWith(s, needle) {
      assert s[|a|] == sep;
      assert needle == a[..|needle|];
    } else if a == [] {
      assert s[1..] == b;
    } else {
      assert s[1..] == a[1..] + [sep] + b;
      IncludesAcrossSeparator(a[1..], sep, b, needle);
      if Includes(a[1..], needle) {
        assert a == [a[0]] + a[1..];
        IncludesInRight([a[0]], a[1..], needle);
      }
    }
  }

  /** Lower-cases every string of a list. */
  function ToLowerCaseAll(parts: seq<string>): (r: seq<string>)
    ensures |r| == |parts|
    ensures forall i :: 0 <= i < |parts| ==> r[i] == ToLowerCase(parts[i])
  {
    if parts == [] then [] else [ToLowerCase(parts[0])] + ToLowerCaseAll(parts[1..])
  }

  /** Lower-casing a join lower-cases each part (the separator is kept when it is lower case). */
  lemma {:induction false} LowerJoin(parts: seq<string>, sep: string)
    requires ToLowerCase(sep) == sep
    ensures ToLowerCase(Join(parts, sep)) == Join(ToLowerCaseAll(parts), sep)
  {
    if |parts| > 1 {
      var rest := Join(parts[1..], sep);
      LowerJoin(parts[1..], sep);
      LowerDistributes(parts[0] + sep, rest);
      LowerDistributes(parts[0], sep);
      assert ToLowerCaseAll(parts)[1..] == ToLowerCaseAll(parts[1..]);
    }
  }

  /** Every part of a join is a substring of it. */
  lemma {:induction false} IncludesPartOfJoin(parts: seq<string>, sep: string, k: nat, needle: string)
    requires k < |parts| && Includes(parts[k], needle)
    ensures Includes(Join(parts, sep), needle)
  {
    if |parts| > 1 {
      var rest := Join(parts[1..], sep);
      assert parts[0] + sep + rest == parts[0] + (sep + rest);
      if k == 0 {
        IncludesInLeft(parts[0], sep + rest, needle);
      } else {
        IncludesPartOfJoin(parts[1..], sep, k - 1, needle);
        IncludesInRight(sep, rest, needle);
        IncludesInRight(parts[0], sep + rest, needle);
      }
    }
  }

  /** A needle free of the one-character separator occurs in a join only inside one part. */
  lemma {:induction false} IncludesJoinOnlyInParts(parts: seq<string>, sep: char, needle: string)
    requires needle != [] && sep !in needle
    requires Includes(Join(parts, [sep]), needle)
    ensures exists k :: 0 <= k < |parts| && Includes(parts[k], needle)
  {
    if |parts| == 1 {
      assert Includes(parts[0], needle);
    } else if |parts| > 1 {
      var rest := Join(parts[1..], [sep]);
      IncludesAcrossSeparator(parts[0], sep, rest, needle);
      if !Includes(parts[0], needle) {
        IncludesJoinOnlyInParts(parts[1..], sep, needle);
        var k :| 0 <= k < |parts| - 1 && Includes(parts[1..][k], needle);
        assert Includes(parts[k + 1], needle);
      }
    }
  }
}
