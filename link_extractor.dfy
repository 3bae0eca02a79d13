/** `extract_project_url` and `has_project_link`, which exist in two copies
    (ainewsfeed/filter.py and ainewsfeed/filter_and_enrich.py) that differ only
    in their URL pattern. The regular expression is modelled by an ASCII
    scanner that finds the same matches, in the same order, as Python's
    `re.findall`; the copies are told apart by a `Pattern` value. */
module LinkExtractor {
  import opened Common
  import opened Records

  /** A URL pattern. `noTrailingDot` is the `(?<!\.)` look-behind of
      filter_and_enrich.py; `withQuery` admits `?`, `=` and `&` in the path,
      which neither source pattern does (see the corrected patterns). */
  datatype Pattern = Pattern(noTrailingDot: bool, withQuery: bool)

  /** `https?://(?:[-\w.]|(?:%[\da-fA-F]{2}))+[/\w\.-]*` */
  const FilterPattern := Pattern(false, false)
  /** The same followed by `(?<!\.)`. */
  const EnrichPattern := Pattern(true, false)
  /** The two patterns with the query characters added to the path class. */
  const CorrectedFilterPattern := Pattern(false, true)
  const CorrectedEnrichPattern := Pattern(true, true)

  // ---------------------------------------------------------------------
  // Character classes (ASCII `\w`)
  // ---------------------------------------------------------------------

  predicate IsWordChar(c: char)
  {
    'a' <= c <= 'z' || 'A' <= c <= 'Z' || '0' <= c <= '9' || c == '_'
  }

  predicate IsHexDigit(c: char)
  {
    '0' <= c <= '9' || 'a' <= c <= 'f' || 'A' <= c <= 'F'
  }

  /** `[-\w.]` */
  predicate IsHostChar(c: char)
  {
    IsWordChar(c) || c == '-' || c == '.'
  }

  /** `[/\w\.-]`, plus `?`, `=` and `&` in a corrected pattern. */
  predicate IsPathChar(p: Pattern, c: char)
  {
    IsWordChar(c) || c == '/' || c == '.' || c == '-' ||
    (p.withQuery && (c == '?' || c == '=' || c == '&'))
  }

  /** Every character a match can contain. */
  predicate IsUrlChar(p: Pattern, c: char)
  {
    IsPathChar(p, c) || c == ':' || c == '%'
  }

  // ---------------------------------------------------------------------
  // The scanner
  // ---------------------------------------------------------------------

  /** Length of the greedy run `(?:[-\w.]|%[\da-fA-F]{2})*` at `s[i..]`. */
  function HostRun(s: string, i: nat): (n: nat)
    requires i <= |s|
    ensures i + n <= |s|
    decreases |s| - i
  {
    if i < |s| && IsHostChar(s[i]) then 1 + HostRun(s, i + 1)
    else if i + 3 <= |s| && s[i] == '%' && IsHexDigit(s[i + 1]) && IsHexDigit(s[i + 2]) then 3 + HostRun(s, i + 3)
    else 0
  }

  /** Length of the greedy run of path characters at `s[i..]`. */
  function PathRun(p: Pattern, s: string, i: nat): (n: nat)
    requires i <= |s|
    ensures i + n <= |s|
    decreases |s| - i
  {
    if i < |s| && IsPathChar(p, s[i]) then 1 + PathRun(p, s, i + 1) else 0
  }

  /** Where the look-behind `(?<!\.)` lets a match end: the greedy end `e`
      moved back over trailing dots, but not below `lo`. */
  function TrimDots(s: string, lo: nat, e: nat): (t: nat)
    requires lo <= e <= |s|
    ensures lo <= t <= e
    decreases e
  {
    if e > lo && s[e - 1] == '.' then TrimDots(s, lo, e - 1) else e
  }

  lemma {:induction false} HostRunChars(s: string, i: nat)
    requires i <= |s|
    ensures forall k :: i <= k < i + HostRun(s, i) ==> IsHostChar(s[k]) || s[k] == '%' || IsHexDigit(s[k])
    decreases |s| - i
  {
    if i < |s| && IsHostChar(s[i]) {
      HostRunChars(s, i + 1);
    } else if i + 3 <= |s| && s[i] == '%' && IsHexDigit(s[i + 1]) && IsHexDigit(s[i + 2]) {
      HostRunChars(s, i + 3);
    }
  }

  /** The path run holds path characters only, and stops at the first other one. */
  lemma {:induction false} PathRunChars(p: Pattern, s: string, i: nat)
    requires i <= |s|
    ensures forall k :: i <= k < i + PathRun(p, s, i) ==> IsPathChar(p, s[k])
    ensures i + PathRun(p, s, i) == |s| || !IsPathChar(p, s[i + PathRun(p, s, i)])
    decreases |s| - i
  {
    if i < |s| && IsPathChar(p, s[i]) {
      PathRunChars(p, s, i + 1);
    }
  }

  /** Trimming stops after a non-dot character and removes dots only. */
  lemma {:induction false} TrimDotsFacts(s: string, lo: nat, e: nat)
    requires lo <= e <= |s|
    ensures TrimDots(s, lo, e) == lo || s[TrimDots(s, lo, e) - 1] != '.'
    ensures forall k :: TrimDots(s, lo, e) <= k < e ==> s[k] == '.'
    decreases e
  {
    if e > lo && s[e - 1] == '.' {
      TrimDotsFacts(s, lo, e - 1);
    }
  }

  /** Length of the `https?://` at `s[i..]`, or 0 when there is none. */
  function SchemeLength(s: string, i: nat): nat
  {
    if OccursAt(s, "https://", i) then 8 else if OccursAt(s, "http://", i) then 7 else 0
  }

  /** A match of the pattern: a scheme, a non-empty host and, for the
      look-behind pattern, no final dot. */
  predicate WellFormed(p: Pattern, u: string)
  {
    (IsPrefix("https://", u) || IsPrefix("http://", u)) &&
    |u| > 7 &&
    (forall k :: 0 <= k < |u| ==> IsUrlChar(p, u[k])) &&
    (p.noTrailingDot ==> u[|u| - 1] != '.')
  }

  predicate IsPrefix(a: string, s: string)
  {
    |a| <= |s| && s[..|a|] == a
  }

  /** Where the match that starts at `i` ends, or `i` itself when no match
      starts there: a scheme, then a greedy host run. */
  function MatchStop(p: Pattern, s: string, i: nat): (t: nat)
    requires i <= |s|
    ensures i <= t <= |s|
  {
    var k := SchemeLength(s, i);
    if k == 0 || i + k > |s| then i else StopAfterScheme(p, s, i, i + k)
  }

  /** After the scheme at `a`: a non-empty host run, then a greedy path run. */
  function StopAfterScheme(p: Pattern, s: string, i: nat, a: nat): (t: nat)
    requires i < a <= |s|
    ensures i <= t <= |s|
  {
    var h := HostRun(s, a);
    if h == 0 then i else StopAtEnd(p, s, i, a, a + h + PathRun(p, s, a + h))
  }

  /** The greedy end `e`; Python's backtracking for the look-behind ends the
      match at the last non-dot character. */
  function StopAtEnd(p: Pattern, s: string, i: nat, a: nat, e: nat): (t: nat)
    requires i < a <= e <= |s|
    ensures i <= t <= |s|
  {
    var t := if p.noTrailingDot then TrimDots(s, a, e) else e;
    if t == a then i else t
  }

  /** The end of the match that starts at `i`, if one does. */
  function MatchEnd(p: Pattern, s: string, i: nat): (r: Option<nat>)
    requires i <= |s|
    ensures r.Some? ==> i < r.value <= |s|
  {
    var t := MatchStop(p, s, i);
    if t == i then None else Some(t)
  }

  /** Every match is a scheme, a host and URL characters, and under the
      look-behind never ends with a dot. */
  lemma MatchIsWellFormed(p: Pattern, s: string, i: nat)
    requires i <= |s| && MatchEnd(p, s, i).Some?
    ensures WellFormed(p, s[i..MatchEnd(p, s, i).value])
  {
    var t := MatchStop(p, s, i);
    MatchStopFacts(p, s, i);
    var k := SchemeLength(s, i);
    SchemeIsUrlText(p, s, i, k);
    var u := s[i..t];
    assert forall j :: 0 <= j < |u| ==> IsUrlChar(p, u[j]) by {
      forall j | 0 <= j < |u| ensures IsUrlChar(p, u[j]) {
        assert u[j] == s[i + j];
      }
    }
    assert k == 8 ==> u[..8] == s[i..i + 8];
    assert k == 7 ==> u[..7] == s[i..i + 7];
  }

  /** What a match stop guarantees: a scheme, a non-empty run of URL
      characters after it and, with the look-behind, no final dot. */
  lemma MatchStopFacts(p: Pattern, s: string, i: nat)
    requires i <= |s|
    ensures MatchStop(p, s, i) > i ==>
      SchemeLength(s, i) > 0 && i + SchemeLength(s, i) < MatchStop(p, s, i)
    ensures MatchStop(p, s, i) > i ==>
      forall j :: i + SchemeLength(s, i) <= j < MatchStop(p, s, i) ==> IsUrlChar(p, s[j])
    ensures MatchStop(p, s, i) > i && p.noTrailingDot ==> s[MatchStop(p, s, i) - 1] != '.'
  {
    var a := i + SchemeLength(s, i);
    if SchemeLength(s, i) > 0 && a <= |s| {
      StopAfterSchemeFacts(p, s, i, a);
    }
  }

  /** Every character of `s[lo..hi]` can be part of a URL. */
  predicate UrlCharsBetween(p: Pattern, s: string, lo: nat, hi: nat)
    requires lo <= hi <= |s|
  {
    forall j :: lo <= j < hi ==> IsUrlChar(p, s[j])
  }

  /** What a stop after the scheme at `a` guarantees. */
  predicate GoodStop(p: Pattern, s: string, i: nat, a: nat, t: nat)
    requires i < a <= |s| && t <= |s|
  {
    t > i ==> a < t && UrlCharsBetween(p, s, a, t) && (p.noTrailingDot ==> s[t - 1] != '.')
  }

  lemma StopAfterSchemeFacts(p: Pattern, s: string, i: nat, a: nat)
    requires i < a <= |s|
    ensures GoodStop(p, s, i, a, StopAfterScheme(p, s, i, a))
  {
    var h := HostRun(s, a);
    if h > 0 {
      var e := a + h + PathRun(p, s, a + h);
      HostRunUrlChars(p, s, a);
      PathRunUrlChars(p, s, a + h);
      UrlCharsJoin(p, s, a, a + h, e);
      StopAtEndFacts(p, s, i, a, e);
    }
  }

  lemma StopAtEndFacts(p: Pattern, s: string, i: nat, a: nat, e: nat)
    requires i < a <= e <= |s| && UrlCharsBetween(p, s, a, e)
    ensures GoodStop(p, s, i, a, StopAtEnd(p, s, i, a, e))
  {
    TrimDotsFacts(s, a, e);
  }

  lemma HostRunUrlChars(p: Pattern, s: string, a: nat)
    requires a <= |s|
    ensures a + HostRun(s, a) <= |s| && UrlCharsBetween(p, s, a, a + HostRun(s, a))
  {
    HostRunChars(s, a);
  }

  lemma PathRunUrlChars(p: Pattern, s: string, b: nat)
    requires b <= |s|
    ensures b + PathRun(p, s, b) <= |s| && UrlCharsBetween(p, s, b, b + PathRun(p, s, b))
  {
    PathRunChars(p, s, b);
  }

  lemma UrlCharsJoin(p: Pattern, s: string, lo: nat, mid: nat, hi: nat)
    requires lo <= mid <= hi <= |s|
    requires UrlCharsBetween(p, s, lo, mid) && UrlCharsBetween(p, s, mid, hi)
    ensures UrlCharsBetween(p, s, lo, hi)
  {
  }

  lemma SchemeIsUrlText(p: Pattern, s: string, i: nat, k: nat)
    requires i <= |s| && k == SchemeLength(s, i) && k > 0
    ensures i + k <= |s|
    ensures forall j :: i <= j < i + k ==> IsUrlChar(p, s[j])
  {
    var scheme := if k == 8 then "https://" else "http://";
    assert s[i..i + k] == scheme;
    forall j | i <= j < i + k ensures IsUrlChar(p, s[j]) {
      assert s[j] == scheme[j - i];
      assert forall c :: c in scheme ==> IsUrlChar(p, c);
    }
  }

  /** Python's `re.findall(pattern, s[i:])`: the matches from left to right,
      each search resuming where the previous match ended. */
  function Urls(p: Pattern, s: string, i: nat): seq<string>
    requires i <= |s|
    decreases |s| - i
  {
    if i == |s| then []
    else
      match MatchEnd(p, s, i)
      case None => Urls(p, s, i + 1)
      case Some(e) => [s[i..e]] + Urls(p, s, e)
  }

  // ---------------------------------------------------------------------
  // Exclusion, rewriting and the first survivor
  // ---------------------------------------------------------------------

  /** Everything `findall` returns is a match of the pattern: under the
      look-behind no URL ends with a dot. */
  lemma {:induction false} UrlsAreWellFormed(p: Pattern, s: string, i: nat)
    requires i <= |s|
    ensures forall u :: u in Urls(p, s, i) ==> WellFormed(p, u)
    decreases |s| - i
  {
    if i < |s| {
      match MatchEnd(p, s, i)
      case None =>
        UrlsAreWellFormed(p, s, i + 1);
      case Some(e) =>
        MatchIsWellFormed(p, s, i);
        UrlsAreWellFormed(p, s, e);
    }
  }

  /** Rule 1: academic and metadata links, tested on the lower-cased URL. */
  predicate IsAcademic(url: string)
  {
    var l := ToLower(url);
    Contains(l, "arxiv.org") || Contains(l, "doi.org") || Contains(l, "creativecommons.org") ||
    Contains(l, "license") || Contains(l, "overleaf.com")
  }

  /** Rule 2: raw repository pages, tested on the lower-cased URL. */
  predicate IsRepository(url: string)
  {
    Contains(ToLower(url), "github.com")
  }

  predicate Survives(url: string)
  {
    !IsAcademic(url) && !IsRepository(url)
  }

  const EmbedPrefix := "https://www.youtube.com/embed/"

  /** `id` sits at index `j` of `url`: right after the last `v=` (at the
      start when there is none), with no `v=` anywhere after `j`, and it
      runs up to the next `&` or to the end of the URL. */
  predicate VideoIdAt(url: string, id: string, j: int)
  {
    0 <= j && j + |id| <= |url| && url[j..j + |id|] == id &&
    (if Contains(url, "v=") then j >= 2 && OccursAt(url, "v=", j - 2) else j == 0) &&
    !Contains(url[j..], "v=") &&
    (j + |id| == |url| || url[j + |id|] == '&')
  }

  /** The video identifier of a `youtube.com/watch` URL:
      `url.split("v=")[-1].split("&")[0]`. */
  function WatchVideoId(url: string): (id: string)
    ensures !Contains(id, "&") && !Contains(id, "v=")
    ensures exists j :: VideoIdAt(url, id, j)
  {
    var afterV := LastPiece(url, "v=");
    var id := FirstPiece(afterV, "&");
    assert id == afterV[0..|id|];
    forall k | OccursAt(id, "v=", k) ensures false {
      OccursInSlice(afterV, 0, |id|, "v=", k);
    }
    var j := |url| - |afterV|;
    assert Contains(url, "v=") ==> OccursAt(url, "v=", j - 2) by {
      if Contains(url, "v=") { LastPieceFollowsSeparator(url, "v="); }
    }
    assert url[j..] == afterV;
    assert url[j..j + |id|] == id;
    assert Contains(afterV, "&") ==> url[j + |id|] == '&' by {
      if Contains(afterV, "&") {
        assert afterV[|id|..|id| + 1] == "&";
        assert url[j + |id|] == afterV[|id|];
      }
    }
    assert VideoIdAt(url, id, j);
    id
  }

  /** The video identifier of a `youtu.be` URL: `url.split("/")[-1]`. */
  function ShortVideoId(url: string): (id: string)
    ensures !Contains(id, "/") && |id| <= |url| && id == url[|url| - |id|..]
  {
    LastPiece(url, "/")
  }

  /** Rule 3: the two YouTube shapes become embeddable player URLs. Both
      tests are case-sensitive and made on the original URL. */
  function Rewrite(url: string): string
  {
    if Contains(url, "youtube.com/watch") then EmbedPrefix + WatchVideoId(url)
    else if Contains(url, "youtu.be") then EmbedPrefix + ShortVideoId(url)
    else url
  }

  /** `urls[k]` is the first URL that survives both exclusion rules. */
  predicate FirstSurvivorAt(urls: seq<string>, k: int)
  {
    0 <= k < |urls| && Survives(urls[k]) && forall j :: 0 <= j < k ==> !Survives(urls[j])
  }

  predicate NoneSurvive(urls: seq<string>)
  {
    forall k :: 0 <= k < |urls| ==> !Survives(urls[k])
  }

  /** The loop of `extract_project_url`: the position of the first URL that
      survives both exclusion rules. */
  function SurvivorIndex(urls: seq<string>): (r: Option<nat>)
    ensures r.Some? ==> r.value < |urls|
  {
    FirstWhere(urls, Survives)
  }

  /** The index `SurvivorIndex` finds is the first survivor, and it finds
      none exactly when no URL survives. */
  lemma SurvivorIndexMeaning(urls: seq<string>)
    ensures SurvivorIndex(urls).None? <==> NoneSurvive(urls)
    ensures SurvivorIndex(urls).Some? ==> FirstSurvivorAt(urls, SurvivorIndex(urls).value)
  {
    FirstWhereMeaning(urls, Survives);
  }

  /** The first URL of `urls` that survives both exclusion rules, rewritten. */
  function FirstLink(urls: seq<string>): Option<string>
  {
    FirstMapped(urls, Survives, Rewrite)
  }

  /** `extract_project_url(text)`: the first surviving URL, rewritten. */
  function ExtractProjectUrl(p: Pattern, text: string): (r: Option<string>)
    ensures text == "" ==> r == None
  {
    if text == "" then None else FirstLink(Urls(p, text, 0))
  }

  /** Empty text has no link; otherwise there is none exactly when every URL
      is excluded, and a link is the first survivor, rewritten, never empty. */
  lemma ExtractProjectUrlMeaning(p: Pattern, text: string)
    ensures ExtractProjectUrl(p, text).None? <==> (text == "" || NoneSurvive(Urls(p, text, 0)))
    ensures ExtractProjectUrl(p, text).Some? ==> ExtractProjectUrl(p, text).value != []
    ensures ExtractProjectUrl(p, text).Some? ==>
      exists k :: FirstSurvivorAt(Urls(p, text, 0), k) &&
        ExtractProjectUrl(p, text).value == Rewrite(Urls(p, text, 0)[k])
  {
    if text != "" {
      var urls := Urls(p, text, 0);
      SurvivorIndexMeaning(urls);
      if SurvivorIndex(urls).Some? {
        var k := SurvivorIndex(urls).value;
        UrlsAreWellFormed(p, text, 0);
        assert WellFormed(p, urls[k]);
        assert FirstSurvivorAt(urls, k);
      }
    }
  }

  /** `project_url` as the enrichment steps compute it: the abstract's
      link, or the comment's when the abstract has none. */
  function ProjectUrlFor(p: Pattern, paper: Paper): Option<string>
  {
    var fromAbstract := ExtractProjectUrl(p, paper.abstractText);
    if fromAbstract.Some? then fromAbstract else ExtractProjectUrl(p, CommentText(paper))
  }

  /** `has_project_link(paper)`. */
  predicate HasProjectLink(p: Pattern, paper: Paper)
  {
    ExtractProjectUrl(p, paper.abstractText).Some? || ExtractProjectUrl(p, CommentText(paper)).Some?
  }

  /** The pre-filter accepts a paper exactly when the enrichment step
      attaches a link to it, and that link is the abstract's when the
      abstract has one. */
  lemma HasProjectLinkMatchesProjectUrl(p: Pattern, paper: Paper)
    ensures HasProjectLink(p, paper) <==> ProjectUrlFor(p, paper).Some?
    ensures ExtractProjectUrl(p, paper.abstractText).Some? ==>
      ProjectUrlFor(p, paper) == ExtractProjectUrl(p, paper.abstractText)
  {
  }
}
