/** Turning the text typed into the search box into a GitHub code-search query and URL:
    `sanitizeInput`, `buildQueryString`, the truncate-then-build decision of `searchHandler`
    and the URL built by `searchGitHubNewTab`. */
module Query {
  import opened Wrappers
  import opened JsString

  /** Longest sanitized text that is turned into a query. */
  const MaxQueryLength: nat := 256

  const UrlPrefix := "https://github.com/search?q="
  const UrlSuffix := "&type=code"

  /** The characters GitHub code search does not accept, as listed in the page's pattern. */
  predicate Forbidden(c: char) {
    c in {'.', ',', ':', ';', '/', '\\', '`', '\'', '"', '=', '*', '!', '?', '#', '$', '&',
          '+', '^', '|', '~', '<', '>', '(', ')', '{', '}', '[', ']', '@'}
  }

  predicate NoForbidden(s: string) {
    forall c :: c in s ==> !Forbidden(c)
  }

  predicate NoDoubleSpace(s: string) {
    forall i :: 0 <= i < |s| - 1 ==> !(s[i] == ' ' && s[i + 1] == ' ')
  }

  /** What `sanitizeInput` promises of its result. */
  predicate Clean(s: string) {
    NoForbidden(s) && NoDoubleSpace(s) && Trimmed(s)
  }

  /** Step 1 of `sanitizeInput`: each forbidden character becomes one space. */
  function ReplaceForbidden(s: string): (r: string)
    ensures |r| == |s| && NoForbidden(r)
    ensures forall i :: 0 <= i < |s| && Forbidden(s[i]) ==> r[i] == ' '
    ensures forall i :: 0 <= i < |s| && !Forbidden(s[i]) ==> r[i] == s[i]
  {
    seq(|s|, i requires 0 <= i < |s| => if Forbidden(s[i]) then ' ' else s[i])
  }

  /** The characters of `s` other than U+0020, in order. */
  function NonSpaces(s: string): string {
    if s == [] then [] else (if s[0] == ' ' then [] else [s[0]]) + NonSpaces(s[1..])
  }

  /** How many spaces of `s` are immediately followed by another space. */
  function DoubledSpaces(s: string): nat {
    if |s| <= 1 then 0 else (if s[0] == ' ' && s[1] == ' ' then 1 else 0) + DoubledSpaces(s[1..])
  }

  /** Step 2 of `sanitizeInput`, the replacement of every run of two or more spaces by one
      space: a space is dropped exactly when the next character is a space too. Only
      U+0020 is collapsed; tabs and other whitespace are kept. */
  function CollapseSpaces(s: string): (r: string)
    ensures NoDoubleSpace(r)
    ensures forall c :: c in r ==> c in s
    ensures s != [] ==> r != [] && r[0] == s[0] && r[|r| - 1] == s[|s| - 1]
  {
    if |s| <= 1 then s
    else if s[0] == ' ' && s[1] == ' ' then CollapseSpaces(s[1..])
    else [s[0]] + CollapseSpaces(s[1..])
  }

  /** Collapsing keeps every other character in order and removes as many spaces as were
      followed by a space. Where those spaces go is fixed by `CollapseSpacesOfMaximalRun`. */
  lemma {:induction false} CollapseSpacesRemovesOnlyDoubles(s: string)
    ensures NonSpaces(CollapseSpaces(s)) == NonSpaces(s)
    ensures |CollapseSpaces(s)| == |s| - DoubledSpaces(s)
  {
    if |s| > 1 {
      CollapseSpacesRemovesOnlyDoubles(s[1..]);
      if !(s[0] == ' ' && s[1] == ' ') {
        var r := CollapseSpaces(s[1..]);
        assert ([s[0]] + r)[1..] == r;
      }
    }
  }

  /** A string without doubled spaces is left alone by the collapse. */
  lemma {:induction false} CollapseSpacesOfSingleSpaced(s: string)
    requires NoDoubleSpace(s)
    ensures CollapseSpaces(s) == s
  {
    if |s| > 1 {
      assert NoDoubleSpace(s[1..]) by {
        forall i | 0 <= i < |s[1..]| - 1 ensures !(s[1..][i] == ' ' && s[1..][i + 1] == ' ') {
          assert s[1..][i] == s[i + 1] && s[1..][i + 1] == s[i + 2];
        }
      }
      CollapseSpacesOfSingleSpaced(s[1..]);
      assert !(s[0] == ' ' && s[1] == ' ');
    }
  }

  /** `sanitizeInput`: replace forbidden characters by spaces, collapse runs of spaces,
      trim. The result is always clean. */
  function Sanitize(s: string): (r: string)
    ensures Clean(r)
  {
    var collapsed := CollapseSpaces(ReplaceForbidden(s));
    TrimSpec(collapsed);
    Trim(collapsed)
  }

  /** A clean string is its own sanitization. */
  lemma SanitizeOfClean(s: string)
    requires Clean(s)
    ensures Sanitize(s) == s
  {
    assert ReplaceForbidden(s) == s;
    CollapseSpacesOfSingleSpaced(s);
    TrimOfTrimmed(s);
  }

  /** `sanitizeInput` is idempotent. */
  lemma SanitizeIdempotent(s: string)
    ensures Sanitize(Sanitize(s)) == Sanitize(s)
  {
    SanitizeOfClean(Sanitize(s));
  }

  /** The fixed points of `sanitizeInput` are exactly the clean strings. */
  lemma SanitizeFixedPoints(s: string)
    ensures Sanitize(s) == s <==> Clean(s)
  {
    if Clean(s) {
      SanitizeOfClean(s);
    }
  }

  /** Every character of `s` is whitespace. */
  predicate AllWs(s: string) {
    forall c :: c in s ==> IsWs(c)
  }

  /** Collapsing works piecewise across a boundary that is not between two spaces. */
  lemma {:induction false} CollapseSpacesConcat(a: string, b: string)
    requires a == [] || b == [] || a[|a| - 1] != ' ' || b[0] != ' '
    ensures CollapseSpaces(a + b) == CollapseSpaces(a) + CollapseSpaces(b)
  {
    if a == [] {
      assert a + b == b;
    } else if b == [] {
      assert a + b == a;
    } else {
      var ab := a + b;
      assert ab[0] == a[0] && |ab| >= 2;
      if |a| == 1 {
        assert ab[1] == b[0] && ab[1..] == b;
        assert !(ab[0] == ' ' && ab[1] == ' ');
      } else {
        assert ab[1] == a[1] && ab[1..] == a[1..] + b;
        CollapseSpacesConcat(a[1..], b);
      }
    }
  }

  /** A run of one or more spaces collapses to a single space. */
  lemma {:induction false} CollapseSpacesOfRun(k: nat)
    requires k >= 1
    ensures CollapseSpaces(seq(k, _ => ' ')) == [' ']
  {
    if k > 1 {
      var run := seq(k, _ => ' ');
      assert run[0] == ' ' && run[1] == ' ';
      assert run[1..] == seq(k - 1, _ => ' ');
      CollapseSpacesOfRun(k - 1);
    }
  }

  /** A maximal run of spaces becomes exactly one space in the same place, and the texts
      on either side of it are collapsed on their own. */
  lemma CollapseSpacesOfMaximalRun(a: string, k: nat, b: string)
    requires k >= 1
    requires a == [] || a[|a| - 1] != ' '
    requires b == [] || b[0] != ' '
    ensures CollapseSpaces(a + seq(k, _ => ' ') + b) == CollapseSpaces(a) + [' '] + CollapseSpaces(b)
  {
    var run := seq(k, _ => ' ');
    CollapseSpacesConcat(a, run);
    CollapseSpacesConcat(a + run, b);
    CollapseSpacesOfRun(k);
  }

  /** `trim` cuts exactly the whitespace around a non-empty trimmed middle. */
  lemma TrimAround(x: string, y: string, z: string)
    requires AllWs(x) && AllWs(z) && y != [] && Trimmed(y)
    ensures Trim(x + y + z) == y
  {
    var s := x + y + z;
    TrimSpec(s);
    var r := Trim(s);
    var i := |s| - |TrimStart(s)|;
    assert s[|x|] == y[0] && s[|x| + |y| - 1] == y[|y| - 1];
    assert forall k :: 0 <= k < |x| ==> s[k] == x[k];
    assert forall k :: |x| + |y| <= k < |s| ==> s[k] == z[k - |x| - |y|];
    assert i == |x| && i + |r| == |x| + |y|;
    assert s[|x|..|x| + |y|] == y;
  }

  /** `trim` of whitespace alone is empty. */
  lemma TrimAllWs(s: string)
    requires AllWs(s)
    ensures Trim(s) == []
  {
    TrimSpec(s);
  }

  /** Replacing forbidden characters works piecewise and leaves whitespace alone. */
  lemma ReplaceForbiddenConcat(a: string, b: string)
    ensures ReplaceForbidden(a + b) == ReplaceForbidden(a) + ReplaceForbidden(b)
    ensures AllWs(a) ==> AllWs(ReplaceForbidden(a))
  {
    var l, ra, rb := ReplaceForbidden(a + b), ReplaceForbidden(a), ReplaceForbidden(b);
    assert forall k :: 0 <= k < |a| ==> l[k] == ra[k];
    assert forall k :: |a| <= k < |l| ==> l[k] == rb[k - |a|];
    if AllWs(a) {
      forall c | c in ra ensures IsWs(c) {
        var k :| 0 <= k < |ra| && ra[k] == c;
        assert a[k] in a && IsWs(a[k]);
      }
    }
  }

  /** Collapsing whitespace leaves whitespace. */
  lemma CollapseSpacesOfWs(s: string)
    requires AllWs(s)
    ensures AllWs(CollapseSpaces(s))
  {
  }

  /** `s` is its trimmed middle framed by whitespace. */
  lemma TrimSplits(s: string) returns (p: string, q: string)
    ensures AllWs(p) && AllWs(q) && s == p + Trim(s) + q
  {
    TrimSpec(s);
    var c := Trim(s);
    var i := |s| - |TrimStart(s)|;
    p, q := s[..i], s[i + |c|..];
    assert s == p + s[i..i + |c|] + q;
  }

  /** Whitespace around a trimmed text disappears in collapse-then-trim. */
  lemma TrimCollapseAroundTrimmed(x: string, c: string, z: string)
    requires AllWs(x) && AllWs(z) && Trimmed(c)
    ensures Trim(CollapseSpaces(x + c + z)) == CollapseSpaces(c)
  {
    if c == [] {
      assert x + c + z == x + z;
      CollapseSpacesOfWs(x + z);
      TrimAllWs(CollapseSpaces(x + z));
    } else {
      assert x == [] || IsWs(x[|x| - 1]);
      CollapseSpacesConcat(x, c);
      CollapseSpacesConcat(x + c, z);
      CollapseSpacesOfWs(x);
      CollapseSpacesOfWs(z);
      TrimAround(CollapseSpaces(x), CollapseSpaces(c), CollapseSpaces(z));
    }
  }

  /** Two whitespace texts together are whitespace. */
  lemma AllWsConcat(a: string, b: string)
    requires AllWs(a) && AllWs(b)
    ensures AllWs(a + b)
  {
  }

  /** Concatenation regrouped around a middle piece. */
  lemma Regroup(x: string, p: string, t: string, q: string, z: string)
    ensures x + (p + t + q) + z == (x + p) + t + (q + z)
  {
  }

  /** Whitespace around a text disappears in collapse-then-trim, and collapse-then-trim
      equals trim-then-collapse. */
  lemma TrimCollapseAround(x: string, s: string, z: string)
    requires AllWs(x) && AllWs(z)
    ensures Trim(CollapseSpaces(x + s + z)) == CollapseSpaces(Trim(s))
  {
    var p, q := TrimSplits(s);
    var t := Trim(s);
    Regroup(x, p, t, q, z);
    AllWsConcat(x, p);
    AllWsConcat(q, z);
    TrimCollapseAroundTrimmed(x + p, t, q + z);
  }

  /** Whitespace around a text never reaches the sanitized result, so the `trim` that
      `searchHandler` applies before `sanitizeInput` only changes the recorded original
      query, not the query. */
  lemma SanitizeIgnoresOuterWhitespace(raw: string)
    ensures Sanitize(Trim(raw)) == Sanitize(raw)
  {
    var x, z := TrimSplits(raw);
    var m := Trim(raw);
    ReplaceForbiddenConcat(x + m, z);
    ReplaceForbiddenConcat(x, m);
    var fx, fm, fz := ReplaceForbidden(x), ReplaceForbidden(m), ReplaceForbidden(z);
    assert ReplaceForbidden(raw) == fx + fm + fz;
    TrimCollapseAround(fx, fm, fz);
    TrimCollapseAround([], fm, []);
    assert [] + fm + [] == fm;
  }

  /** `buildQueryString`: split on single spaces, join with `+`. That is the same as
      replacing each space by `+`. */
  function BuildQueryString(sanitized: string): (query: string)
    ensures query == ReplaceChar(sanitized, ' ', '+')
  {
    JoinSplitIsReplace(sanitized, ' ', '+');
    Join(Split(sanitized, ' '), '+')
  }

  /** `buildQueryString` replaces every space by `+` and changes nothing else: same length,
      no space left, and on a string without `+` (every sanitized string) the input is
      recovered by turning each `+` back into a space. */
  lemma BuildQueryStringReplacesSpaces(s: string)
    ensures BuildQueryString(s) == ReplaceChar(s, ' ', '+')
    ensures |BuildQueryString(s)| == |s| && ' ' !in BuildQueryString(s)
    ensures '+' !in s ==> ReplaceChar(BuildQueryString(s), '+', ' ') == s
  {
    JoinSplitIsReplace(s, ' ', '+');
    var r := BuildQueryString(s);
    assert forall i :: 0 <= i < |r| ==> r[i] != ' ';
    if '+' !in s {
      ReplaceCharRoundTrip(s, ' ', '+');
    }
  }

  /** A sanitized string never contains `+`, so its query string decodes back to it. */
  lemma SanitizedHasNoPlus(s: string)
    requires Clean(s)
    ensures '+' !in s
  {
    assert Forbidden('+');
  }

  /** The first `min(|s|, n)` characters of `s` (`s.slice(0, n)`). */
  function Truncate(s: string, n: nat): (r: string)
    ensures |r| == if |s| > n then n else |s|
    ensures r == s[..|r|]
    ensures |s| <= n ==> r == s
  {
    if |s| > n then s[..n] else s
  }

  /** `searchGitHubNewTab`'s URL. The query is not percent-encoded. */
  function SearchUrl(query: string): (url: string)
    ensures |url| == |UrlPrefix| + |query| + |UrlSuffix|
    ensures url[..|UrlPrefix|] == UrlPrefix && url[|url| - |UrlSuffix|..] == UrlSuffix
    ensures url[|UrlPrefix|..|url| - |UrlSuffix|] == query
  {
    UrlPrefix + query + UrlSuffix
  }

  /** What `searchHandler` decides: the trimmed input (kept in the history as the original
      query), the query string and the URL to open. */
  datatype Plan = Plan(originalQuery: string, query: string, url: string)

  /** `searchHandler`'s decision: trim, sanitize, give up on an empty result, otherwise
      build the query from at most `MaxQueryLength` sanitized characters. A non-empty
      sanitized text always yields a non-empty query, so the `query &&` guard of the
      source never refuses. A planned search records the trimmed input, and its query
      has 1 to 256 characters and no space. */
  function PlanSearch(raw: string): (r: Option<Plan>)
    ensures r.Some? ==> r.value.originalQuery == Trim(raw)
    ensures r.Some? ==> 0 < |r.value.query| <= MaxQueryLength && ' ' !in r.value.query
  {
    var originalQuery := Trim(raw);
    var sanitized := Sanitize(originalQuery);
    if |sanitized| > 0 then
      var query :=
        if |sanitized| > MaxQueryLength then BuildQueryString(sanitized[..MaxQueryLength])
        else BuildQueryString(sanitized);
      if query != [] then Some(Plan(originalQuery, query, SearchUrl(query))) else None
    else None
  }

  /** No search is planned exactly when the trimmed input sanitizes to nothing. */
  lemma PlanSearchNone(raw: string)
    ensures PlanSearch(raw).None? <==> Sanitize(Trim(raw)) == []
  {
    var sanitized := Sanitize(Trim(raw));
    if |sanitized| > 0 {
      BuildQueryStringReplacesSpaces(Truncate(sanitized, MaxQueryLength));
    }
  }

  /** A planned search carries the trimmed input, and a query that is the first
      `min(|sanitized|, 256)` sanitized characters with each space turned into `+`: at most
      256 characters, no space, and decoding it gives back the truncated sanitized text.
      The URL is the fixed prefix, the query and the fixed suffix. */
  lemma PlanSearchSome(raw: string)
    requires PlanSearch(raw).Some?
    ensures var p := PlanSearch(raw).value;
      var truncated := Truncate(Sanitize(Trim(raw)), MaxQueryLength);
      && p.originalQuery == Trim(raw)
      && p.query == ReplaceChar(truncated, ' ', '+')
      && 0 < |p.query| <= MaxQueryLength
      && ' ' !in p.query
      && ReplaceChar(p.query, '+', ' ') == truncated
      && p.url == UrlPrefix + p.query + UrlSuffix
  {
    var sanitized := Sanitize(Trim(raw));
    var truncated := Truncate(sanitized, MaxQueryLength);
    SanitizedHasNoPlus(sanitized);
    assert '+' !in truncated;
    BuildQueryStringReplacesSpaces(truncated);
  }

  /** The query ends with the joiner `+`. */
  predicate EndsWithPlus(q: string) {
    q != [] && q[|q| - 1] == '+'
  }

  /** Truncation happens before the spaces are replaced, so a sanitized text whose 256th
      character is a space yields a query that ends with `+`. */
  lemma TruncationCanLeaveTrailingPlus(raw: string)
    requires |Sanitize(Trim(raw))| > MaxQueryLength
    requires Sanitize(Trim(raw))[MaxQueryLength - 1] == ' '
    ensures PlanSearch(raw).Some?
    ensures |PlanSearch(raw).value.query| == MaxQueryLength
    ensures EndsWithPlus(PlanSearch(raw).value.query)
  {
    var truncated := Sanitize(Trim(raw))[..MaxQueryLength];
    BuildQueryStringReplacesSpaces(truncated);
  }

  /** Such inputs exist: 255 letters, a space and one more letter. */
  lemma TrailingPlusWitness()
    ensures exists raw :: PlanSearch(raw).Some? && EndsWithPlus(PlanSearch(raw).value.query)
  {
    var raw := seq(MaxQueryLength - 1, _ => 'a') + [' ', 'b'];
    LongCleanText(raw);
    TrimOfTrimmed(raw);
    SanitizeOfClean(raw);
    TruncationCanLeaveTrailingPlus(raw);
    assert PlanSearch(raw).Some? && EndsWithPlus(PlanSearch(raw).value.query);
  }

  /** The witness text is clean, longer than 256 characters, with a space at the 256th. */
  lemma LongCleanText(raw: string)
    requires raw == seq(MaxQueryLength - 1, _ => 'a') + [' ', 'b']
    ensures Clean(raw) && |raw| > MaxQueryLength && raw[MaxQueryLength - 1] == ' '
  {
    assert forall i :: 0 <= i < MaxQueryLength - 1 ==> raw[i] == 'a';
    assert raw[MaxQueryLength - 1] == ' ' && raw[MaxQueryLength] == 'b';
    assert forall c :: c in raw ==> c == 'a' || c == ' ' || c == 'b';
  }

  /** Example: `foo/bar baz!!` sanitizes to `foo bar baz`, is searched as `foo+bar+baz`,
      and its URL is `https://github.com/search?q=foo+bar+baz&type=code`. */
  lemma ExampleSearch(raw: string)
    requires raw == "foo/bar baz!!"
    ensures PlanSearch(raw) == Some(Plan(raw, "foo+bar+baz", UrlPrefix + "foo+bar+baz" + UrlSuffix))
  {
    TrimOfTrimmed(raw);
    var sanitized := ExampleSanitize(raw);
    var query := ExampleBuild(sanitized);
    assert |sanitized| == 11;
  }

  /** `foo bar baz` builds to `foo+bar+baz`. */
  lemma ExampleBuild(sanitized: string) returns (query: string)
    requires sanitized == "foo bar baz"
    ensures query == "foo+bar+baz" && BuildQueryString(sanitized) == query
  {
    query := "foo+bar+baz";
    var replaced := ReplaceChar(sanitized, ' ', '+');
    forall i | 0 <= i < |query| ensures replaced[i] == query[i] {
    }
  }

  /** `foo/bar baz!!` sanitizes to `foo bar baz`. */
  lemma ExampleSanitize(raw: string) returns (sanitized: string)
    requires raw == "foo/bar baz!!"
    ensures sanitized == "foo bar baz" && Sanitize(raw) == sanitized
  {
    sanitized := "foo bar baz";
    var replaced := ExampleReplace(raw);
    ExampleCollapse(replaced, sanitized);
    TrimAround([], sanitized, " ");
    assert [] + sanitized + " " == sanitized + " ";
  }

  /** In `foo/bar baz!!` the slash and both exclamation marks become spaces. */
  lemma ExampleReplace(raw: string) returns (replaced: string)
    requires raw == "foo/bar baz!!"
    ensures replaced == "foo bar baz  " && ReplaceForbidden(raw) == replaced
  {
    replaced := "foo bar baz  ";
    assert Forbidden('/') && Forbidden('!') && !Forbidden(' ');
    assert !Forbidden('f') && !Forbidden('o') && !Forbidden('b') && !Forbidden('a');
    assert !Forbidden('r') && !Forbidden('z');
  }

  /** The two trailing spaces of `foo bar baz  ` collapse into one. */
  lemma ExampleCollapse(replaced: string, sanitized: string)
    requires replaced == "foo bar baz  " && sanitized == "foo bar baz"
    ensures CollapseSpaces(replaced) == sanitized + " "
  {
    assert NoDoubleSpace(sanitized) by {
      forall i | 0 <= i < |sanitized| - 1 ensures !(sanitized[i] == ' ' && sanitized[i + 1] == ' ') {
      }
    }
    CollapseSpacesOfSingleSpaced(sanitized);
    CollapseSpacesConcat(sanitized, "  ");
    assert replaced == sanitized + "  ";
  }

  /** Example: a blank input plans no search. */
  lemma ExampleBlankSearch(raw: string)
    requires raw == "   "
    ensures PlanSearch(raw) == None
  {
    TrimAllWs(raw);
  }
}
