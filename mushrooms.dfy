/**
 * The mushroom record, the static fallback dataset and the pure helpers
 * that work on records: slug ids, free-text matching and edibility-status
 * normalization.
 */
module Mushrooms {
  import opened Options
  import opened JsString

  /** One catalogue record; the optional descriptive fields may be null or absent. */
  datatype Mushroom = Mushroom(
    id: string,
    commonNameFr: string,
    scientificName: string,
    family: Option<string>,
    edibilityStatus: string,
    capShape: Option<string>,
    capColor: Option<string>,
    hymenophoreType: Option<string>,
    sporePrintColor: Option<string>,
    hasRing: bool,
    hasVolva: bool,
    bruisingColor: Option<string>,
    habitat: Option<string>,
    seasonTags: Option<string>,
    description: Option<string>,
    warnings: Option<string>,
    imageUrl: Option<string>)

  /** The four edibility statuses the catalogue knows. */
  datatype EdibilityStatus = Comestible | Toxique | NonComestible | Inconnu

  /** The status code as it is stored on a record. */
  function Code(status: EdibilityStatus): string {
    match status
    case Comestible => "comestible"
    case Toxique => "toxique"
    case NonComestible => "non_comestible"
    case Inconnu => "inconnu"
  }

  // ---------------------------------------------------------------------
  // Slug ids

  /** The combining diacritical marks block U+0300..U+036F. */
  predicate IsCombiningMark(c: char) {
    '\U{0300}' <= c <= '\U{036F}'
  }

  /** Removes every combining diacritical mark. */
  function StripCombiningMarks(s: string): (r: string)
    ensures forall i :: 0 <= i < |r| ==> !IsCombiningMark(r[i])
    ensures (forall i :: 0 <= i < |s| ==> !IsCombiningMark(s[i])) ==> r == s
  {
    if s == [] then []
    else if IsCombiningMark(s[0]) then StripCombiningMarks(s[1..])
    else [s[0]] + StripCombiningMarks(s[1..])
  }

  /** Stripping works character by character: it distributes over concatenation. */
  lemma {:induction false} StripCombiningMarksAppend(a: string, b: string)
    ensures StripCombiningMarks(a + b) == StripCombiningMarks(a) + StripCombiningMarks(b)
  {
    if a == [] {
      assert a + b == b;
    } else {
      assert (a + b)[0] == a[0];
      assert (a + b)[1..] == a[1..] + b;
      StripCombiningMarksAppend(a[1..], b);
    }
  }

  /** A mark is deleted and every other character is kept. */
  lemma StripCombiningMarksOfChar(c: char)
    ensures StripCombiningMarks([c]) == if IsCombiningMark(c) then [] else [c]
  {
    assert [c][1..] == [];
  }

  /** The characters a slug keeps: `[a-z0-9]`. */
  predicate IsSlugChar(c: char) {
    'a' <= c <= 'z' || '0' <= c <= '9'
  }

  /** Positions `i` and `i + 1` of `s` both hold a hyphen. */
  predicate DoubleHyphenAt(s: string, i: int) {
    0 <= i < |s| - 1 && s[i] == '-' && s[i + 1] == '-'
  }

  /** Only `[a-z0-9-]`, and never two hyphens in a row. */
  predicate IsSlugBody(s: string) {
    && (forall i :: 0 <= i < |s| ==> IsSlugChar(s[i]) || s[i] == '-')
    && (forall i :: 0 <= i < |s| ==> !DoubleHyphenAt(s, i))
  }

  /** A well-formed slug: a slug body with no hyphen at either end. */
  predicate IsSlug(s: string) {
    IsSlugBody(s) && (s != [] ==> s[0] != '-' && s[|s| - 1] != '-')
  }

  /** Drops the run of non-slug characters at the front of `s`. */
  function DropNonSlugRun(s: string): (r: string)
    ensures |r| <= |s| && r == s[|s| - |r|..]
    ensures r == [] || IsSlugChar(r[0])
  {
    if s != [] && !IsSlugChar(s[0]) then
      var r := DropNonSlugRun(s[1..]);
      assert s[1..][|s| - 1 - |r|..] == s[|s| - |r|..];
      r
    else s
  }

  /**
   * The first replacement of `toId`: every maximal run of characters outside
   * `[a-z0-9]` becomes one hyphen.
   */
  function CollapseNonSlugRuns(s: string): (r: string)
    ensures IsSlugBody(r)
    ensures r == [] <==> s == []
    ensures r != [] ==> (r[0] == '-' <==> !IsSlugChar(s[0]))
    decreases |s|
  {
    if s == [] then []
    else if IsSlugChar(s[0]) then
      var rest := CollapseNonSlugRuns(s[1..]);
      SlugBodyCons(s[0], rest);
      [s[0]] + rest
    else
      var rest := CollapseNonSlugRuns(DropNonSlugRun(s[1..]));
      SlugBodyCons('-', rest);
      "-" + rest
  }

  /** The second replacement of `toId`: one hyphen is removed from each end. */
  function TrimEdgeHyphens(s: string): string {
    var t := if s != [] && s[0] == '-' then s[1..] else s;
    if t != [] && t[|t| - 1] == '-' then t[..|t| - 1] else t
  }

  /**
   * `toId(value)`. The parameter is the NFKD decomposition of the value:
   * Unicode normalization itself is not modelled, the removal of the
   * combining marks it exposes is.
   */
  function ToId(decomposed: string): string {
    TrimEdgeHyphens(CollapseNonSlugRuns(ToLowerCase(StripCombiningMarks(decomposed))))
  }

  /** The slug characters of a string, in order. */
  function SlugChars(s: string): (r: string)
    ensures forall i :: 0 <= i < |r| ==> IsSlugChar(r[i])
  {
    if s == [] then []
    else if IsSlugChar(s[0]) then [s[0]] + SlugChars(s[1..])
    else SlugChars(s[1..])
  }

  /** Putting a slug character, or a hyphen before a non-hyphen, in front keeps a slug body. */
  lemma SlugBodyCons(c: char, t: string)
    requires IsSlugBody(t)
    requires IsSlugChar(c) || (c == '-' && (t == [] || t[0] != '-'))
    ensures IsSlugBody([c] + t)
  {
    var s := [c] + t;
    forall i | 0 <= i < |s|
      ensures !DoubleHyphenAt(s, i)
    {
      if i > 0 {
        assert !DoubleHyphenAt(t, i - 1);
      }
    }
  }

  lemma SlugBodySlice(s: string, lo: nat, hi: nat)
    requires IsSlugBody(s) && lo <= hi <= |s|
    ensures IsSlugBody(s[lo..hi])
  {
    var t := s[lo..hi];
    forall i | 0 <= i < |t|
      ensures !DoubleHyphenAt(t, i)
    {
      assert !DoubleHyphenAt(s, lo + i);
    }
  }

  lemma TrimEdgeHyphensMakesSlug(c: string)
    requires IsSlugBody(c)
    ensures IsSlug(TrimEdgeHyphens(c))
  {
    var t := if c != [] && c[0] == '-' then c[1..] else c;
    if c != [] && c[0] == '-' {
      SlugBodySlice(c, 1, |c|);
      assert c[1..|c|] == t;
      assert !DoubleHyphenAt(c, 0);
    }
    if t != [] && t[|t| - 1] == '-' {
      SlugBodySlice(t, 0, |t| - 1);
      assert !DoubleHyphenAt(t, |t| - 2);
    }
  }

  /** Every id `ToId` produces is a well-formed slug. */
  lemma ToIdIsSlug(decomposed: string)
    ensures IsSlug(ToId(decomposed))
  {
    TrimEdgeHyphensMakesSlug(CollapseNonSlugRuns(ToLowerCase(StripCombiningMarks(decomposed))));
  }

  lemma {:induction false} SlugCharsOfDropped(s: string)
    ensures SlugChars(DropNonSlugRun(s)) == SlugChars(s)
  {
    if s != [] && !IsSlugChar(s[0]) {
      SlugCharsOfDropped(s[1..]);
    }
  }

  lemma {:induction false} SlugCharsOfCollapsed(s: string)
    ensures SlugChars(CollapseNonSlugRuns(s)) == SlugChars(s)
    decreases |s|
  {
    if s != [] {
      var c := CollapseNonSlugRuns(s);
      if IsSlugChar(s[0]) {
        SlugCharsOfCollapsed(s[1..]);
        assert c[1..] == CollapseNonSlugRuns(s[1..]);
      } else {
        var d := DropNonSlugRun(s[1..]);
        SlugCharsOfCollapsed(d);
        SlugCharsOfDropped(s[1..]);
        assert c[1..] == CollapseNonSlugRuns(d);
      }
    }
  }

  lemma {:induction false} SlugCharsOfConcat(a: string, b: string)
    ensures SlugChars(a + b) == SlugChars(a) + SlugChars(b)
  {
    if a == [] {
      assert a + b == b;
    } else {
      SlugCharsOfConcat(a[1..], b);
      assert (a + b)[1..] == a[1..] + b;
    }
  }

  /**
   * `ToId` drops no letter or digit and adds none: its slug characters are
   * exactly those of the lower-cased, mark-free input, in order.
   */
  lemma ToIdKeepsLettersAndDigits(decomposed: string)
    ensures SlugChars(ToId(decomposed)) == SlugChars(ToLowerCase(StripCombiningMarks(decomposed)))
  {
    var lowered := ToLowerCase(StripCombiningMarks(decomposed));
    SlugCharsOfCollapsed(lowered);
    SlugCharsOfTrimmedEdges(CollapseNonSlugRuns(lowered));
  }

  lemma SlugCharsOfTrimmedEdges(c: string)
    ensures SlugChars(TrimEdgeHyphens(c)) == SlugChars(c)
  {
    var t := if c != [] && c[0] == '-' then c[1..] else c;
    if c != [] && c[0] == '-' {
      SlugCharsOfConcat("-", t);
      assert c == "-" + t;
    }
    if t != [] && t[|t| - 1] == '-' {
      SlugCharsOfConcat(t[..|t| - 1], "-");
      assert t == t[..|t| - 1] + "-";
    }
  }

  lemma {:induction false} CollapseFixesSlugBody(s: string)
    requires IsSlugBody(s)
    requires s != [] ==> s[|s| - 1] != '-'
    ensures CollapseNonSlugRuns(s) == s
    decreases |s|
  {
    if s != [] {
      SlugBodySlice(s, 1, |s|);
      assert s[1..|s|] == s[1..];
      CollapseFixesSlugBody(s[1..]);
      if !IsSlugChar(s[0]) {
        assert !DoubleHyphenAt(s, 0);
        assert DropNonSlugRun(s[1..]) == s[1..];
      }
    }
  }

  /** A well-formed slug is its own id. */
  lemma ToIdFixesSlugs(s: string)
    requires IsSlug(s)
    ensures ToId(s) == s
  {
    SlugIsLowerAndUnmarked(s);
    CollapseFixesSlugBody(s);
  }

  lemma SlugIsLowerAndUnmarked(s: string)
    requires forall i :: 0 <= i < |s| ==> IsSlugChar(s[i]) || s[i] == '-'
    ensures ToLowerCase(StripCombiningMarks(s)) == s
  {
    assert forall i :: 0 <= i < |s| ==> !IsCombiningMark(s[i]);
    assert StripCombiningMarks(s) == s;
    assert ToLowerCase(s) == s;
  }

  /** `ToId` is idempotent: an id is its own id. */
  lemma ToIdIdempotent(decomposed: string)
    ensures ToId(ToId(decomposed)) == ToId(decomposed)
  {
    ToIdIsSlug(decomposed);
    ToIdFixesSlugs(ToId(decomposed));
  }

  lemma {:induction false} CollapseOfSlugPrefix(a: string, rest: string)
    requires forall i :: 0 <= i < |a| ==> IsSlugChar(a[i])
    ensures CollapseNonSlugRuns(a + rest) == a + CollapseNonSlugRuns(rest)
  {
    if a != [] {
      assert (a + rest)[1..] == a[1..] + rest;
      CollapseOfSlugPrefix(a[1..], rest);
    } else {
      assert a + rest == rest;
    }
  }

  /** Regrouping a concatenation, as a separate step so that the collapse proofs below stay cheap. */
  lemma AppendAssociates(a: string, b: string, c: string)
    ensures a + b + c == a + (b + c)
  {
  }

  // ---------------------------------------------------------------------
  // Where `toId` puts its hyphens

  /** A word of a slug: one or more characters of `[a-z0-9]`. */
  predicate IsWord(w: string) {
    w != [] && forall i :: 0 <= i < |w| ==> IsSlugChar(w[i])
  }

  /** A run of characters outside `[a-z0-9]` (possibly empty). */
  predicate IsNonSlugRun(run: string) {
    forall i :: 0 <= i < |run| ==> !IsSlugChar(run[i])
  }

  /** `words[0] + seps[0] + words[1] + … + words[n]`: words separated by runs. */
  function Interleave(words: seq<string>, seps: seq<string>): string
    requires |words| == |seps| + 1
    decreases |seps|
  {
    if seps == [] then words[0] else words[0] + seps[0] + Interleave(words[1..], seps[1..])
  }

  lemma {:induction false} DropOfNonSlugRun(run: string, t: string)
    requires IsNonSlugRun(run)
    requires t == [] || IsSlugChar(t[0])
    ensures DropNonSlugRun(run + t) == t
  {
    if run == [] {
      assert run + t == t;
    } else {
      assert (run + t)[0] == run[0];
      assert (run + t)[1..] == run[1..] + t;
      DropOfNonSlugRun(run[1..], t);
    }
  }

  /** A whole run of characters outside `[a-z0-9]` becomes exactly one hyphen. */
  lemma CollapseOfNonSlugRun(run: string, t: string)
    requires run != [] && IsNonSlugRun(run)
    requires t == [] || IsSlugChar(t[0])
    ensures CollapseNonSlugRuns(run + t) == "-" + CollapseNonSlugRuns(t)
  {
    assert (run + t)[0] == run[0];
    assert (run + t)[1..] == run[1..] + t;
    DropOfNonSlugRun(run[1..], t);
  }

  lemma InterleaveStartsWithWord(words: seq<string>, seps: seq<string>)
    requires |words| == |seps| + 1 && IsWord(words[0])
    ensures Interleave(words, seps) != [] && IsSlugChar(Interleave(words, seps)[0])
  {
    if seps != [] {
      var rest := Interleave(words[1..], seps[1..]);
      assert (words[0] + seps[0] + rest)[0] == words[0][0];
    }
  }

  lemma {:induction false} JoinOfWordsEdges(words: seq<string>)
    requires |words| >= 1 && forall k :: 0 <= k < |words| ==> IsWord(words[k])
    ensures var j := Join(words, "-"); j != [] && IsSlugChar(j[0]) && IsSlugChar(j[|j| - 1])
    decreases |words|
  {
    if |words| > 1 {
      JoinOfWordsEdges(words[1..]);
      var r := Join(words[1..], "-");
      assert Join(words, "-") == words[0] + "-" + r;
      assert (words[0] + "-" + r)[0] == words[0][0];
    }
  }

  /** A word followed by a run and more text: the run becomes one hyphen after the word. */
  lemma CollapseOfWordThenRun(w: string, sep: string, u: string)
    requires IsWord(w)
    requires sep != [] && IsNonSlugRun(sep)
    requires u != [] && IsSlugChar(u[0])
    ensures CollapseNonSlugRuns(w + sep + u) == w + "-" + CollapseNonSlugRuns(u)
  {
    AppendAssociates(w, sep, u);
    CollapseOfSlugPrefix(w, sep + u);
    CollapseOfNonSlugRun(sep, u);
    AppendAssociates(w, "-", CollapseNonSlugRuns(u));
  }

  lemma HeadOfAppend(a: string, b: string)
    requires a != []
    ensures a + b != [] && (a + b)[0] == a[0]
  {
  }

  /**
   * Words separated by non-empty runs, followed by a tail that does not
   * start with a word: every separating run becomes one hyphen.
   */
  lemma {:induction false} CollapseOfWords(words: seq<string>, seps: seq<string>, tail: string)
    requires |words| == |seps| + 1
    requires forall k :: 0 <= k < |words| ==> IsWord(words[k])
    requires forall k :: 0 <= k < |seps| ==> seps[k] != [] && IsNonSlugRun(seps[k])
    requires tail == [] || !IsSlugChar(tail[0])
    ensures CollapseNonSlugRuns(Interleave(words, seps) + tail) == Join(words, "-") + CollapseNonSlugRuns(tail)
    decreases |seps|
  {
    var w := words[0];
    if seps == [] {
      CollapseOfSlugPrefix(w, tail);
    } else {
      var sep := seps[0];
      var rest := Interleave(words[1..], seps[1..]);
      var j := Join(words[1..], "-");
      var ct := CollapseNonSlugRuns(tail);
      CollapseOfWords(words[1..], seps[1..], tail);
      InterleaveStartsWithWord(words[1..], seps[1..]);
      HeadOfAppend(rest, tail);
      AppendAssociates(w + sep, rest, tail);
      CollapseOfWordThenRun(w, sep, rest + tail);
      AppendAssociates(w + "-", j, ct);
    }
  }

  lemma TrimEdgeHyphensOfPadded(before: string, j: string, after: string)
    requires before == "" || before == "-"
    requires after == "" || after == "-"
    requires j != [] && j[0] != '-' && j[|j| - 1] != '-'
    ensures TrimEdgeHyphens(before + j + after) == j
  {
    var t := j + after;
    assert before + j + after == before + t;
    if before == "-" {
      assert (before + t)[1..] == t;
    }
    if after == "-" {
      assert t[..|t| - 1] == j;
    } else {
      assert t == j;
    }
  }

  /** A non-empty run before text that starts with a word collapses to one leading hyphen. */
  lemma CollapseOfLeadingRun(lead: string, body: string, trail: string)
    requires lead != [] && IsNonSlugRun(lead)
    requires body != [] && IsSlugChar(body[0])
    ensures CollapseNonSlugRuns(lead + body + trail) == "-" + CollapseNonSlugRuns(body + trail)
  {
    AppendAssociates(lead, body, trail);
    HeadOfAppend(body, trail);
    CollapseOfNonSlugRun(lead, body + trail);
  }

  /** A trailing run collapses to at most one hyphen. */
  lemma CollapseOfTrailingRun(trail: string)
    requires IsNonSlugRun(trail)
    ensures CollapseNonSlugRuns(trail) == if trail == [] then "" else "-"
  {
    if trail != [] {
      CollapseOfNonSlugRun(trail, []);
      assert trail + [] == trail;
    }
  }

  lemma CollapseOfPadded(lead: string, body: string, trail: string, j: string)
    requires IsNonSlugRun(lead)
    requires body != [] && IsSlugChar(body[0])
    requires CollapseNonSlugRuns(body + trail) == j + CollapseNonSlugRuns(trail)
    ensures CollapseNonSlugRuns(lead + body + trail) ==
      (if lead == [] then "" else "-") + j + CollapseNonSlugRuns(trail)
  {
    if lead != [] {
      CollapseOfLeadingRunThen(lead, body, trail, j);
    } else {
      CollapseOfNoLeadingRun(lead, body, trail, j);
    }
  }

  lemma CollapseOfLeadingRunThen(lead: string, body: string, trail: string, j: string)
    requires lead != [] && IsNonSlugRun(lead)
    requires body != [] && IsSlugChar(body[0])
    requires CollapseNonSlugRuns(body + trail) == j + CollapseNonSlugRuns(trail)
    ensures CollapseNonSlugRuns(lead + body + trail) == "-" + j + CollapseNonSlugRuns(trail)
  {
    CollapseOfLeadingRun(lead, body, trail);
    PrependHyphen(CollapseNonSlugRuns(lead + body + trail), CollapseNonSlugRuns(body + trail), j,
                  CollapseNonSlugRuns(trail));
  }

  lemma CollapseOfNoLeadingRun(lead: string, body: string, trail: string, j: string)
    requires lead == []
    requires CollapseNonSlugRuns(body + trail) == j + CollapseNonSlugRuns(trail)
    ensures CollapseNonSlugRuns(lead + body + trail) == "" + j + CollapseNonSlugRuns(trail)
  {
    assert lead + body + trail == body + trail;
    assert "" + j == j;
  }

  lemma PrependHyphen(c: string, cb: string, j: string, after: string)
    requires c == "-" + cb && cb == j + after
    ensures c == "-" + j + after
  {
    AppendAssociates("-", j, after);
  }

  /** The first replacement of `toId` on words between runs: one hyphen per run, edges included. */
  lemma CollapseOfPaddedWords(lowered: string, lead: string, words: seq<string>, seps: seq<string>, trail: string)
    requires |words| == |seps| + 1
    requires forall k :: 0 <= k < |words| ==> IsWord(words[k])
    requires forall k :: 0 <= k < |seps| ==> seps[k] != [] && IsNonSlugRun(seps[k])
    requires IsNonSlugRun(lead) && IsNonSlugRun(trail)
    requires lowered == lead + Interleave(words, seps) + trail
    ensures CollapseNonSlugRuns(lowered) ==
      (if lead == [] then "" else "-") + Join(words, "-") + (if trail == [] then "" else "-")
  {
    CollapseOfWords(words, seps, trail);
    InterleaveStartsWithWord(words, seps);
    CollapseOfPadded(lead, Interleave(words, seps), trail, Join(words, "-"));
    CollapseOfTrailingRun(trail);
  }

  /** The two replacements of `toId` on a value already lower-cased and stripped of marks. */
  lemma SlugOfWords(lowered: string, lead: string, words: seq<string>, seps: seq<string>, trail: string)
    requires |words| == |seps| + 1
    requires forall k :: 0 <= k < |words| ==> IsWord(words[k])
    requires forall k :: 0 <= k < |seps| ==> seps[k] != [] && IsNonSlugRun(seps[k])
    requires IsNonSlugRun(lead) && IsNonSlugRun(trail)
    requires lowered == lead + Interleave(words, seps) + trail
    ensures TrimEdgeHyphens(CollapseNonSlugRuns(lowered)) == Join(words, "-")
  {
    CollapseOfPaddedWords(lowered, lead, words, seps, trail);
    JoinOfWordsEdges(words);
    TrimEdgeHyphensOfPadded(if lead == [] then "" else "-", Join(words, "-"), if trail == [] then "" else "-");
  }

  /**
   * Where the hyphens go: a lower-cased, mark-stripped value made of words of
   * `[a-z0-9]` separated by runs of other characters, with optional runs at
   * either end, gets the id of its words joined by single hyphens.
   */
  lemma ToIdOfWords(decomposed: string, lead: string, words: seq<string>, seps: seq<string>, trail: string)
    requires |words| == |seps| + 1
    requires forall k :: 0 <= k < |words| ==> IsWord(words[k])
    requires forall k :: 0 <= k < |seps| ==> seps[k] != [] && IsNonSlugRun(seps[k])
    requires IsNonSlugRun(lead) && IsNonSlugRun(trail)
    requires ToLowerCase(StripCombiningMarks(decomposed)) == lead + Interleave(words, seps) + trail
    ensures ToId(decomposed) == Join(words, "-")
  {
    SlugOfWords(ToLowerCase(StripCombiningMarks(decomposed)), lead, words, seps, trail);
  }

  /** A value with no character of `[a-z0-9]` gets the empty id. */
  lemma ToIdOfNoWords(decomposed: string)
    requires IsNonSlugRun(ToLowerCase(StripCombiningMarks(decomposed)))
    ensures ToId(decomposed) == ""
  {
    var run := ToLowerCase(StripCombiningMarks(decomposed));
    if run != [] {
      CollapseOfNonSlugRun(run, []);
      assert run + [] == run;
    }
  }

  /** `ToIdOfWords` for a two-word name: words of letters and digits separated by one space give `first-second`. */
  lemma TwoWordNameId(name: string, first: string, second: string)
    requires IsWord(first) && IsWord(second)
    requires forall i :: 0 <= i < |name| ==> !IsCombiningMark(name[i])
    requires ToLowerCase(name) == first + " " + second
    ensures ToId(name) == first + "-" + second
  {
    var stripped := StripCombiningMarks(name);
    assert stripped == name;
    ToIdOfTwoWords(name, first, second, [first, second], [" "]);
  }

  lemma ToIdOfTwoWords(decomposed: string, first: string, second: string, words: seq<string>, seps: seq<string>)
    requires IsWord(first) && IsWord(second) && words == [first, second] && seps == [" "]
    requires ToLowerCase(StripCombiningMarks(decomposed)) == first + " " + second
    ensures ToId(decomposed) == first + "-" + second
  {
    TwoWordsAsInterleave(first, second, words, seps);
    ToIdOfWords(decomposed, "", words, seps, "");
  }

  lemma TwoWordsAsInterleave(first: string, second: string, words: seq<string>, seps: seq<string>)
    requires IsWord(first) && IsWord(second) && words == [first, second] && seps == [" "]
    ensures |words| == |seps| + 1
    ensures forall k :: 0 <= k < |words| ==> IsWord(words[k])
    ensures forall k :: 0 <= k < |seps| ==> seps[k] != [] && IsNonSlugRun(seps[k])
    ensures IsNonSlugRun("")
    ensures "" + Interleave(words, seps) + "" == first + " " + second
    ensures Join(words, "-") == first + "-" + second
  {
    assert words[1..] == [second];
  }

  // ---------------------------------------------------------------------
  // The static fallback dataset

  /** The three records served when no store answers; ids come from the scientific names. */
  const FallbackMushrooms: seq<Mushroom> := [
    Mushroom(
      id := "boletus-edulis",
      commonNameFr := "Cèpe de Bordeaux",
      scientificName := "Boletus edulis",
      family := Some("Boletaceae"),
      edibilityStatus := "comestible",
      capShape := Some("convexe"),
      capColor := Some("brun"),
      hymenophoreType := Some("tubes"),
      sporePrintColor := Some("olive"),
      hasRing := false,
      hasVolva := false,
      bruisingColor := Some("aucun"),
      habitat := Some("forêt"),
      seasonTags := Some("été,automne"),
      description := Some("Bolet robuste, tubes blancs puis jaunâtres, pied trapu."),
      warnings := None,
      imageUrl := None),
    Mushroom(
      id := "cantharellus-cibarius",
      commonNameFr := "Girolle",
      scientificName := "Cantharellus cibarius",
      family := Some("Cantharellaceae"),
      edibilityStatus := "comestible",
      capShape := Some("entonnoir"),
      capColor := Some("jaune"),
      hymenophoreType := Some("plis"),
      sporePrintColor := Some("jaune_pâle"),
      hasRing := false,
      hasVolva := false,
      bruisingColor := None,
      habitat := Some("forêt"),
      seasonTags := Some("été,automne"),
      description := Some("Plis décurrents, odeur fruitée."),
      warnings := None,
      imageUrl := None),
    Mushroom(
      id := "amanita-phalloides",
      commonNameFr := "Amanite phalloïde",
      scientificName := "Amanita phalloides",
      family := Some("Amanitaceae"),
      edibilityStatus := "toxique",
      capShape := Some("convexe"),
      capColor := Some("vert_olive"),
      hymenophoreType := Some("lamelles"),
      sporePrintColor := Some("blanc"),
      hasRing := true,
      hasVolva := true,
      bruisingColor := None,
      habitat := Some("forêt"),
      seasonTags := Some("été,automne"),
      description := None,
      warnings := Some("Mortelle. Volve + anneau + lamelles blanches."),
      imageUrl := None)
  ]

  /** The fallback ids are `boletus-edulis`, `cantharellus-cibarius` and `amanita-phalloides`, pairwise distinct. */
  lemma FallbackIdsDistinct()
    ensures |FallbackMushrooms| == 3
    ensures FallbackMushrooms[0].id == "boletus-edulis"
    ensures FallbackMushrooms[1].id == "cantharellus-cibarius"
    ensures FallbackMushrooms[2].id == "amanita-phalloides"
    ensures forall i, j :: 0 <= i < j < |FallbackMushrooms| ==> FallbackMushrooms[i].id != FallbackMushrooms[j].id
  {
  }

  /** Each fallback id is `ToId` of the record's scientific name, as the dataset computes it. */
  lemma FallbackIdIsSlugOfScientificName(k: nat)
    requires k < |FallbackMushrooms|
    ensures FallbackMushrooms[k].id == ToId(FallbackMushrooms[k].scientificName)
  {
    if k == 0 {
      BoletusEdulisId(FallbackMushrooms[0].scientificName);
    } else if k == 1 {
      CantharellusCibariusId(FallbackMushrooms[1].scientificName);
    } else {
      AmanitaPhalloidesId(FallbackMushrooms[2].scientificName);
    }
  }

  // One lemma per name: checking a literal name character by character is
  // cheap on its own and runs out of resource beside the whole dataset.

  lemma BoletusEdulisId(name: string)
    requires name == "Boletus edulis"
    ensures ToId(name) == "boletus-edulis"
  {
    ScientificNameId(name, "boletus edulis", "boletus", "edulis");
  }

  lemma CantharellusCibariusId(name: string)
    requires name == "Cantharellus cibarius"
    ensures ToId(name) == "cantharellus-cibarius"
  {
    ScientificNameId(name, "cantharellus cibarius", "cantharellus", "cibarius");
  }

  lemma AmanitaPhalloidesId(name: string)
    requires name == "Amanita phalloides"
    ensures ToId(name) == "amanita-phalloides"
  {
    ScientificNameId(name, "amanita phalloides", "amanita", "phalloides");
  }

  /** `TwoWordNameId` for a given name, its lower-cased form and its two words. */
  lemma ScientificNameId(name: string, lowered: string, first: string, second: string)
    requires |name| == |lowered|
    requires forall i :: 0 <= i < |name| ==> ToLowerCaseChar(name[i]) == lowered[i] && !IsCombiningMark(name[i])
    requires lowered == first + " " + second
    requires IsWord(first) && IsWord(second)
    ensures ToId(name) == first + "-" + second
  {
    assert ToLowerCase(name) == lowered;
    TwoWordNameId(name, first, second);
  }

  // ---------------------------------------------------------------------
  // Free-text matching

  /** The six searched fields, a null field counting as the empty string. */
  function SearchFields(m: Mushroom): seq<string> {
    [ m.commonNameFr, m.scientificName, m.family.GetOr(""),
      m.capColor.GetOr(""), m.hymenophoreType.GetOr(""), m.habitat.GetOr("") ]
  }

  /** The query as `matchesQuery` compares it: trimmed, then lower-cased. */
  function NormalizedQuery(query: string): string {
    ToLowerCase(Trim(query))
  }

  /** The searched fields joined by spaces, lower-cased. */
  function Haystack(m: Mushroom): string {
    ToLowerCase(Join(SearchFields(m), " "))
  }

  /** `matchesQuery(mushroom, query)` */
  predicate MatchesQuery(m: Mushroom, query: string) {
    var q := NormalizedQuery(query);
    |q| == 0 || Includes(Haystack(m), q)
  }

  /** An empty or white-space-only query matches every record. */
  lemma BlankQueryMatchesAll(m: Mushroom, query: string)
    requires AllWhiteSpace(query)
    ensures MatchesQuery(m, query)
  {
    TrimEmptyIffAllWhiteSpace(query);
  }

  /** A query found, case-insensitively, in any one searched field matches. */
  lemma FieldHitMatches(m: Mushroom, query: string, k: nat)
    requires k < 6 && Includes(ToLowerCase(SearchFields(m)[k]), NormalizedQuery(query))
    ensures MatchesQuery(m, query)
  {
    var fields := SearchFields(m);
    LowerJoin(fields, " ");
    IncludesPartOfJoin(ToLowerCaseAll(fields), " ", k, NormalizedQuery(query));
  }

  /**
   * Conversely, a non-blank query without a space matches only when it is
   * found in one searched field: no match straddles two fields.
   */
  lemma MatchOfSpaceFreeQueryIsInOneField(m: Mushroom, query: string)
    requires NormalizedQuery(query) != "" && ' ' !in NormalizedQuery(query)
    requires MatchesQuery(m, query)
    ensures exists k :: 0 <= k < 6 && Includes(ToLowerCase(SearchFields(m)[k]), NormalizedQuery(query))
  {
    var fields := SearchFields(m);
    LowerJoin(fields, " ");
    IncludesJoinOnlyInParts(ToLowerCaseAll(fields), ' ', NormalizedQuery(query));
  }

  /**
   * Matching ignores case on both sides, and reads only the six searched
   * fields: queries equal up to case, over records whose searched fields are
   * equal up to case, give the same answer.
   */
  lemma MatchesQueryIgnoresCase(m1: Mushroom, m2: Mushroom, q1: string, q2: string)
    requires ToLowerCase(q1) == ToLowerCase(q2)
    requires ToLowerCaseAll(SearchFields(m1)) == ToLowerCaseAll(SearchFields(m2))
    ensures MatchesQuery(m1, q1) == MatchesQuery(m2, q2)
  {
    NormalizedQueryIgnoresCase(q1, q2);
    HaystackIgnoresCase(m1, m2);
  }

  lemma NormalizedQueryIgnoresCase(q1: string, q2: string)
    requires ToLowerCase(q1) == ToLowerCase(q2)
    ensures NormalizedQuery(q1) == NormalizedQuery(q2)
  {
    TrimLowerCommute(q1);
    TrimLowerCommute(q2);
  }

  lemma HaystackIgnoresCase(m1: Mushroom, m2: Mushroom)
    requires ToLowerCaseAll(SearchFields(m1)) == ToLowerCaseAll(SearchFields(m2))
    ensures Haystack(m1) == Haystack(m2)
  {
    assert ToLowerCase(" ") == " ";
    LowerJoin(SearchFields(m1), " ");
    LowerJoin(SearchFields(m2), " ");
  }

  // ---------------------------------------------------------------------
  // Edibility status

  /** Recognises a trimmed, lower-cased status: the empty string and unknown codes give null. */
  function StatusOfCode(raw: string): (r: Option<EdibilityStatus>)
    ensures forall st :: r == Some(st) <==> raw == Code(st)
  {
    if raw == "" then None
    else if raw == "comestible" then Some(Comestible)
    else if raw == "toxique" then Some(Toxique)
    else if raw == "non_comestible" then Some(NonComestible)
    else if raw == "inconnu" then Some(Inconnu)
    else None
  }

  /**
   * `normalizeEdibilityStatus(value)`: trims and lower-cases the input and
   * recognises exactly the four codes; anything else, absent or empty is null.
   */
  function NormalizeEdibilityStatus(value: Option<string>): (r: Option<EdibilityStatus>)
    ensures forall st :: r == Some(st) <==> value.Some? && ToLowerCase(Trim(value.value)) == Code(st)
  {
    StatusOfCode(ToLowerCase(Trim(value.GetOr(""))))
  }

  /** Normalizing a status code gives that status back, so normalization is idempotent. */
  lemma NormalizeCodeIsIdentity(st: EdibilityStatus)
    ensures NormalizeEdibilityStatus(Some(Code(st))) == Some(st)
  {
    var c := Code(st);
    match st
    case Comestible => LowerCaseWordIsNormal(c);
    case Toxique => LowerCaseWordIsNormal(c);
    case NonComestible => LowerCaseWordIsNormal(c);
    case Inconnu => LowerCaseWordIsNormal(c);
  }

  /** A word of lower-case ASCII letters and underscores is left as it is by trimming and lower-casing. */
  lemma LowerCaseWordIsNormal(c: string)
    requires c != []
    requires forall i :: 0 <= i < |c| ==> 'a' <= c[i] <= 'z' || c[i] == '_'
    ensures ToLowerCase(Trim(c)) == c
  {
    assert !IsWhiteSpace(c[0]) && TrimStart(c) == c;
    assert !IsWhiteSpace(c[|c| - 1]) && TrimEnd(c) == c;
    assert forall i :: 0 <= i < |c| ==> ToLowerCaseChar(c[i]) == c[i];
  }

  /** A status code written in any case and padded with white space normalizes to that status. */
  lemma WrittenStatusNormalizes(st: EdibilityStatus, written: string, before: string, after: string)
    requires ToLowerCase(written) == Code(st)
    requires AllWhiteSpace(before) && AllWhiteSpace(after)
    ensures NormalizeEdibilityStatus(Some(before + written + after)) == Some(st)
  {
    NormalizeCodeIsIdentity(st);
    LowerIdempotent(written);
    NormalizeIgnoresCaseAndPadding(written, Code(st), before, after);
  }

  /** A value that is no status code once trimmed and lower-cased normalizes to null, like an absent one. */
  lemma UnknownStatusNormalizesToNull(value: string)
    requires forall st :: ToLowerCase(Trim(value)) != Code(st)
    ensures NormalizeEdibilityStatus(Some(value)) == NormalizeEdibilityStatus(None) == None
  {
    assert StatusOfCode("") == None;
  }

  /** Case and surrounding white space do not change the normalized status. */
  lemma NormalizeIgnoresCaseAndPadding(s: string, t: string, before: string, after: string)
    requires ToLowerCase(s) == ToLowerCase(t)
    requires AllWhiteSpace(before) && AllWhiteSpace(after)
    ensures NormalizeEdibilityStatus(Some(before + s + after)) == NormalizeEdibilityStatus(Some(t))
  {
    TrimIgnoresPadding(before, s, after);
    TrimLowerCommute(s);
    TrimLowerCommute(t);
  }
}
