/** Properties of the link extractor: matches do not cross a separator
    character, so the first link of a text made of two parts is decided part
    by part; the two YouTube shapes; and the lost video identifier of the
    `watch` shape under the patterns as written. */
module LinkFacts {
  import opened Common
  import opened LinkExtractor

  /** A character no URL pattern can match: not a word character and none
      of `/ . - ? = & : %`. Spaces and line breaks are separators. */
  predicate IsSeparator(c: char)
  {
    !IsUrlChar(CorrectedFilterPattern, c)
  }

  lemma SeparatorIsNoUrlChar(p: Pattern, c: char)
    requires IsSeparator(c)
    ensures !IsUrlChar(p, c) && !IsHostChar(c) && !IsHexDigit(c) && c != 'h'
  {
  }

  // ---------------------------------------------------------------------
  // Locality of the scanner
  // ---------------------------------------------------------------------

  /** `t` occurs in `s` at offset `d`, and what follows it in `s` cannot
      continue a URL. */
  predicate EmbeddedAt(s: string, t: string, d: nat)
  {
    d + |t| <= |s| &&
    (forall j :: 0 <= j < |t| ==> s[d + j] == t[j]) &&
    (d + |t| == |s| || IsSeparator(s[d + |t|]))
  }

  lemma {:induction false} HostRunEmbedded(s: string, t: string, d: nat, i: nat)
    requires EmbeddedAt(s, t, d) && i <= |t|
    ensures HostRun(s, d + i) == HostRun(t, i)
    decreases |t| - i
  {
    if d + |t| < |s| {
      SeparatorIsNoUrlChar(CorrectedFilterPattern, s[d + |t|]);
    }
    if i < |t| {
      assert s[d + i] == t[i];
      if IsHostChar(t[i]) {
        HostRunEmbedded(s, t, d, i + 1);
      } else if i + 3 <= |t| {
        assert s[d + i + 1] == t[i + 1] && s[d + i + 2] == t[i + 2];
        if t[i] == '%' && IsHexDigit(t[i + 1]) && IsHexDigit(t[i + 2]) {
          HostRunEmbedded(s, t, d, i + 3);
        }
      } else if i + 1 < |t| {
        assert s[d + i + 1] == t[i + 1];
      }
    }
  }

  lemma {:induction false} PathRunEmbedded(p: Pattern, s: string, t: string, d: nat, i: nat)
    requires EmbeddedAt(s, t, d) && i <= |t|
    ensures PathRun(p, s, d + i) == PathRun(p, t, i)
    decreases |t| - i
  {
    if d + |t| < |s| {
      SeparatorIsNoUrlChar(p, s[d + |t|]);
    }
    if i < |t| {
      assert s[d + i] == t[i];
      if IsPathChar(p, t[i]) {
        PathRunEmbedded(p, s, t, d, i + 1);
      }
    }
  }

  lemma {:induction false} TrimDotsEmbedded(s: string, t: string, d: nat, lo: nat, e: nat)
    requires EmbeddedAt(s, t, d) && lo <= e <= |t|
    ensures TrimDots(s, d + lo, d + e) == d + TrimDots(t, lo, e)
    decreases e
  {
    if e > lo {
      assert s[d + e - 1] == t[e - 1];
      TrimDotsEmbedded(s, t, d, lo, e - 1);
    }
  }

  lemma SchemeOccursEmbedded(s: string, t: string, d: nat, i: nat, scheme: string)
    requires EmbeddedAt(s, t, d) && i <= |t|
    requires scheme == "https://" || scheme == "http://"
    ensures OccursAt(s, scheme, d + i) <==> OccursAt(t, scheme, i)
  {
    if i + |scheme| <= |t| {
      assert s[d + i..d + i + |scheme|] == t[i..i + |scheme|];
    } else if d + i + |scheme| <= |s| {
      assert s[d + |t|] == s[d + i..d + i + |scheme|][|t| - i];
      assert forall c :: c in scheme ==> IsUrlChar(CorrectedFilterPattern, c);
      assert scheme[|t| - i] in scheme;
    }
  }

  lemma SchemeEmbedded(s: string, t: string, d: nat, i: nat)
    requires EmbeddedAt(s, t, d) && i <= |t|
    ensures SchemeLength(s, d + i) == SchemeLength(t, i)
  {
    SchemeOccursEmbedded(s, t, d, i, "https://");
    SchemeOccursEmbedded(s, t, d, i, "http://");
  }

  lemma StopAtEndEmbedded(p: Pattern, s: string, t: string, d: nat, i: nat, a: nat, e: nat)
    requires EmbeddedAt(s, t, d) && i < a <= e <= |t|
    ensures StopAtEnd(p, s, d + i, d + a, d + e) == d + StopAtEnd(p, t, i, a, e)
  {
    TrimDotsEmbedded(s, t, d, a, e);
  }

  lemma StopAfterSchemeEmbedded(p: Pattern, s: string, t: string, d: nat, i: nat, a: nat)
    requires EmbeddedAt(s, t, d) && i < a <= |t|
    ensures StopAfterScheme(p, s, d + i, d + a) == d + StopAfterScheme(p, t, i, a)
  {
    HostRunEmbedded(s, t, d, a);
    var h := HostRun(t, a);
    if h > 0 {
      var q := PathRun(p, t, a + h);
      PathRunEmbedded(p, s, t, d, a + h);
      StopAtEndEmbedded(p, s, t, d, i, a, a + h + q);
      StopAfterHostShifted(p, s, t, d, i, a, h, q);
    }
  }

  lemma StopAfterHostShifted(p: Pattern, s: string, t: string, d: nat, i: nat, a: nat, h: nat, q: nat)
    requires d + |t| <= |s| && i < a <= |t| && h > 0 && HostRun(t, a) == h && HostRun(s, d + a) == h
    requires PathRun(p, t, a + h) == q && PathRun(p, s, d + a + h) == q
    requires StopAtEnd(p, s, d + i, d + a, d + a + h + q) == d + StopAtEnd(p, t, i, a, a + h + q)
    ensures StopAfterScheme(p, s, d + i, d + a) == d + StopAfterScheme(p, t, i, a)
  {
    StopAfterHost(p, t, i, a, h, q);
    StopAfterHost(p, s, d + i, d + a, h, q);
  }

  /** `StopAfterScheme` once the host and path runs are known. */
  lemma StopAfterHost(p: Pattern, s: string, i: nat, a: nat, h: nat, q: nat)
    requires i < a <= |s| && h > 0 && HostRun(s, a) == h && PathRun(p, s, a + h) == q
    ensures a + h + q <= |s|
    ensures StopAfterScheme(p, s, i, a) == StopAtEnd(p, s, i, a, a + h + q)
  {
  }

  lemma MatchStopEmbedded(p: Pattern, s: string, t: string, d: nat, i: nat)
    requires EmbeddedAt(s, t, d) && i <= |t|
    ensures MatchStop(p, s, d + i) == d + MatchStop(p, t, i)
  {
    SchemeEmbedded(s, t, d, i);
    var k := SchemeLength(t, i);
    if k > 0 && i + k <= |t| {
      StopAfterSchemeEmbedded(p, s, t, d, i, i + k);
    }
  }

  function ShiftBy(r: Option<nat>, n: nat): Option<nat>
  {
    match r
    case None => None
    case Some(e) => Some(n + e)
  }

  lemma MatchEndEmbedded(p: Pattern, s: string, t: string, d: nat, i: nat)
    requires EmbeddedAt(s, t, d) && i <= |t|
    ensures MatchEnd(p, s, d + i) == ShiftBy(MatchEnd(p, t, i), d)
  {
    MatchStopEmbedded(p, s, t, d, i);
  }

  /** From offset `i` of the embedded `t` on, scanning `s` finds the URLs
      scanning `t` finds, then those after `t`. */
  predicate UrlsAgreeFrom(p: Pattern, s: string, t: string, d: nat, i: nat)
    requires d + |t| <= |s| && i <= |t|
  {
    Urls(p, s, d + i) == Urls(p, t, i) + Urls(p, s, d + |t|)
  }

  /** Scanning `s` across an embedded `t` finds exactly the URLs of `t`. */
  lemma UrlsEmbedded(p: Pattern, s: string, t: string, d: nat, after: nat)
    requires EmbeddedAt(s, t, d) && after == d + |t|
    ensures Urls(p, s, d) == Urls(p, t, 0) + Urls(p, s, after)
  {
    UrlsAgreeAll(p, s, t, d, 0);
    assert UrlsAgreeFrom(p, s, t, d, 0);
    assert d + 0 == d;
  }

  lemma {:induction false} UrlsAgreeAll(p: Pattern, s: string, t: string, d: nat, i: nat)
    requires EmbeddedAt(s, t, d) && i <= |t|
    ensures UrlsAgreeFrom(p, s, t, d, i)
    decreases |t| - i
  {
    if i < |t| {
      var n := UrlsHeadEmbedded(p, s, t, d, i);
      UrlsAgreeAll(p, s, t, d, n);
    } else {
      assert Urls(p, t, i) == [];
    }
  }

  /**
   * One scanning step at offset `i` of the embedded `t`: scanning both
   * texts resumes at the same offset `n`, having found the same URL (or none).
   */
  lemma UrlsHeadEmbedded(p: Pattern, s: string, t: string, d: nat, i: nat) returns (n: nat)
    requires EmbeddedAt(s, t, d) && i < |t|
    ensures i < n <= |t|
    ensures UrlsAgreeFrom(p, s, t, d, n) ==> UrlsAgreeFrom(p, s, t, d, i)
  {
    match MatchEnd(p, t, i)
    case None =>
      n := i + 1;
      UrlsSkipEmbedded(p, s, t, d, i);
    case Some(e) =>
      n := e;
      UrlsFoundEmbedded(p, s, t, d, i, e);
  }

  lemma UrlsSkipEmbedded(p: Pattern, s: string, t: string, d: nat, i: nat)
    requires EmbeddedAt(s, t, d) && i < |t| && MatchEnd(p, t, i) == None
    ensures UrlsAgreeFrom(p, s, t, d, i + 1) ==> UrlsAgreeFrom(p, s, t, d, i)
  {
    MatchEndEmbeddedNone(p, s, t, d, i);
    UrlsHeadNone(p, s, t, d, i);
  }

  lemma UrlsFoundEmbedded(p: Pattern, s: string, t: string, d: nat, i: nat, e: nat)
    requires EmbeddedAt(s, t, d) && i < |t| && MatchEnd(p, t, i) == Some(e)
    ensures e <= |t| && (UrlsAgreeFrom(p, s, t, d, e) ==> UrlsAgreeFrom(p, s, t, d, i))
  {
    MatchEndEmbeddedSome(p, s, t, d, i, e);
    if UrlsAgreeFrom(p, s, t, d, e) {
      UrlsStepSome(p, s, t, d, i, e);
    }
  }

  lemma MatchEndEmbeddedNone(p: Pattern, s: string, t: string, d: nat, i: nat)
    requires EmbeddedAt(s, t, d) && i <= |t| && MatchEnd(p, t, i) == None
    ensures MatchEnd(p, s, d + i) == None
  {
    MatchEndEmbedded(p, s, t, d, i);
  }

  lemma MatchEndEmbeddedSome(p: Pattern, s: string, t: string, d: nat, i: nat, e: nat)
    requires EmbeddedAt(s, t, d) && i <= |t| && MatchEnd(p, t, i) == Some(e)
    ensures MatchEnd(p, s, d + i) == Some(d + e)
  {
    MatchEndEmbedded(p, s, t, d, i);
  }

  lemma UrlsStepSome(p: Pattern, s: string, t: string, d: nat, i: nat, e: nat)
    requires EmbeddedAt(s, t, d) && i < |t|
    requires MatchEnd(p, t, i) == Some(e) && MatchEnd(p, s, d + i) == Some(d + e)
    requires Urls(p, s, d + e) == Urls(p, t, e) + Urls(p, s, d + |t|)
    ensures Urls(p, s, d + i) == Urls(p, t, i) + Urls(p, s, d + |t|)
  {
    UrlsHeadSome(p, s, t, d, i, e);
    UrlsConsStep(p, s, t, d, i, e);
  }

  lemma UrlsHeadNone(p: Pattern, s: string, t: string, d: nat, i: nat)
    requires d + i < |s| && i < |t|
    requires MatchEnd(p, t, i) == None && MatchEnd(p, s, d + i) == None
    ensures Urls(p, s, d + i) == Urls(p, s, d + i + 1) && Urls(p, t, i) == Urls(p, t, i + 1)
  {
    UrlsNoMatch(p, s, d + i);
    UrlsNoMatch(p, t, i);
  }

  lemma UrlsHeadSome(p: Pattern, s: string, t: string, d: nat, i: nat, e: nat)
    requires EmbeddedAt(s, t, d) && i < |t|
    requires MatchEnd(p, t, i) == Some(e) && MatchEnd(p, s, d + i) == Some(d + e)
    ensures i < e <= |t|
    ensures IsCons(Urls(p, s, d + i), s[d + i..d + e], Urls(p, s, d + e))
    ensures IsCons(Urls(p, t, i), t[i..e], Urls(p, t, e))
    ensures s[d + i..d + e] == t[i..e]
  {
    UrlsMatch(p, s, d + i, d + e);
    UrlsMatch(p, t, i, e);
    EmbeddedSlice(s, t, d, i, e);
  }

  lemma UrlsNoMatch(p: Pattern, s: string, i: nat)
    requires i < |s| && MatchEnd(p, s, i) == None
    ensures Urls(p, s, i) == Urls(p, s, i + 1)
  {
  }

  lemma UrlsMatch(p: Pattern, s: string, i: nat, e: nat)
    requires i < |s| && MatchEnd(p, s, i) == Some(e)
    ensures e <= |s| && IsCons(Urls(p, s, i), s[i..e], Urls(p, s, e))
  {
  }

  /** Joins one matched link in front of the lists already proved equal after it. */
  lemma UrlsConsStep(p: Pattern, s: string, t: string, d: nat, i: nat, e: nat)
    requires d + |t| <= |s| && i < e <= |t|
    requires IsCons(Urls(p, s, d + i), s[d + i..d + e], Urls(p, s, d + e))
    requires IsCons(Urls(p, t, i), t[i..e], Urls(p, t, e))
    requires s[d + i..d + e] == t[i..e]
    requires Urls(p, s, d + e) == Urls(p, t, e) + Urls(p, s, d + |t|)
    ensures Urls(p, s, d + i) == Urls(p, t, i) + Urls(p, s, d + |t|)
  {
    ConsAssoc(t[i..e], Urls(p, t, e), Urls(p, s, d + |t|));
  }

  /** `a` is the list `b` with `x` in front. */
  predicate IsCons<T(==)>(a: seq<T>, x: T, b: seq<T>)
  {
    a == [x] + b
  }

  lemma ConsAssoc(x: string, rest: seq<string>, tail: seq<string>)
    ensures [x] + (rest + tail) == ([x] + rest) + tail
  {
  }

  lemma EmbeddedSlice(s: string, t: string, d: nat, i: nat, e: nat)
    requires EmbeddedAt(s, t, d) && i <= e <= |t|
    ensures s[d + i..d + e] == t[i..e]
  {
  }

  /** No match starts at a separator. */
  lemma NoMatchAtSeparator(p: Pattern, s: string, m: nat)
    requires m < |s| && IsSeparator(s[m])
    ensures MatchEnd(p, s, m) == None
  {
    SeparatorIsNoUrlChar(p, s[m]);
    assert !OccursAt(s, "https://", m) by {
      if m + 8 <= |s| { assert s[m..m + 8][0] == s[m]; }
    }
    assert !OccursAt(s, "http://", m) by {
      if m + 7 <= |s| { assert s[m..m + 7][0] == s[m]; }
    }
  }

  /** `re.findall` over a text that has a separator at `m` finds the URLs
      before it and then those after it. */
  lemma UrlsSplitAt(p: Pattern, s: string, m: nat)
    requires m < |s| && IsSeparator(s[m])
    ensures Urls(p, s, 0) == Urls(p, s[..m], 0) + Urls(p, s[m + 1..], 0)
  {
    UrlsBeforeSeparator(p, s, m);
    UrlsAtSeparator(p, s, m);
    UrlsAfterSeparator(p, s, m);
  }

  lemma UrlsBeforeSeparator(p: Pattern, s: string, m: nat)
    requires m < |s| && IsSeparator(s[m])
    ensures Urls(p, s, 0) == Urls(p, s[..m], 0) + Urls(p, s, m)
  {
    PrefixEmbedded(s, m);
    UrlsEmbedded(p, s, s[..m], 0, m);
  }

  lemma PrefixEmbedded(s: string, m: nat)
    requires m < |s| && IsSeparator(s[m])
    ensures EmbeddedAt(s, s[..m], 0) && |s[..m]| == m
  {
  }

  lemma UrlsAtSeparator(p: Pattern, s: string, m: nat)
    requires m < |s| && IsSeparator(s[m])
    ensures Urls(p, s, m) == Urls(p, s, m + 1)
  {
    NoMatchAtSeparator(p, s, m);
    UrlsNoMatch(p, s, m);
  }

  lemma UrlsAfterSeparator(p: Pattern, s: string, m: nat)
    requires m < |s|
    ensures Urls(p, s, m + 1) == Urls(p, s[m + 1..], 0)
  {
    SuffixEmbedded(s, m);
    UrlsEmbedded(p, s, s[m + 1..], m + 1, |s|);
    assert Urls(p, s, |s|) == [];
  }

  lemma SuffixEmbedded(s: string, m: nat)
    requires m < |s|
    ensures EmbeddedAt(s, s[m + 1..], m + 1)
  {
  }

  /** The same for two texts joined by a separator. */
  lemma UrlsOfJoinedText(p: Pattern, a: string, c: char, b: string)
    requires IsSeparator(c)
    ensures Urls(p, a + [c] + b, 0) == Urls(p, a, 0) + Urls(p, b, 0)
  {
    var s := a + [c] + b;
    assert s[..|a|] == a && s[|a|] == c && s[|a| + 1..] == b;
    UrlsSplitAt(p, s, |a|);
  }

  // ---------------------------------------------------------------------
  // The first surviving link of a joined text
  // ---------------------------------------------------------------------

  lemma FirstLinkAppend(xs: seq<string>, ys: seq<string>)
    ensures FirstLink(xs + ys) == if FirstLink(xs).Some? then FirstLink(xs) else FirstLink(ys)
  {
    FirstMappedAppend(xs, ys, Survives, Rewrite);
  }

  /** Occurrence order decides: when every link in the first part of a text
      is excluded, the result is the second part's link. */
  lemma ExtractSkipsExcludedPart(p: Pattern, a: string, c: char, b: string)
    requires IsSeparator(c) && NoneSurvive(Urls(p, a, 0))
    ensures ExtractProjectUrl(p, a + [c] + b) == ExtractProjectUrl(p, b)
  {
    var xs, ys := Urls(p, a, 0), Urls(p, b, 0);
    UrlsOfJoinedText(p, a, c, b);
    FirstLinkAppend(xs, ys);
    SurvivorIndexMeaning(xs);
    assert FirstLink(xs) == None;
    assert b == "" ==> ys == [];
  }

  /** ... and when the first part has a link, later links never replace it:
      first match, not best match. */
  lemma ExtractKeepsFirstPart(p: Pattern, a: string, c: char, b: string)
    requires IsSeparator(c) && ExtractProjectUrl(p, a).Some?
    ensures ExtractProjectUrl(p, a + [c] + b) == ExtractProjectUrl(p, a)
  {
    var xs, ys := Urls(p, a, 0), Urls(p, b, 0);
    UrlsOfJoinedText(p, a, c, b);
    FirstLinkAppend(xs, ys);
  }

  // ---------------------------------------------------------------------
  // Runs over known text
  // ---------------------------------------------------------------------

  lemma {:induction false} HostRunOver(s: string, i: nat, j: nat)
    requires i <= j <= |s|
    requires forall k :: i <= k < j ==> IsHostChar(s[k])
    requires j == |s| || (!IsHostChar(s[j]) && s[j] != '%')
    ensures HostRun(s, i) == j - i
    decreases j - i
  {
    if i < j {
      HostRunOver(s, i + 1, j);
    }
  }

  lemma {:induction false} PathRunOver(p: Pattern, s: string, i: nat, j: nat)
    requires i <= j <= |s|
    requires forall k :: i <= k < j ==> IsPathChar(p, s[k])
    requires j == |s| || !IsPathChar(p, s[j])
    ensures PathRun(p, s, i) == j - i
    decreases j - i
  {
    if i < j {
      PathRunOver(p, s, i + 1, j);
    }
  }

  lemma HttpsAtStart(s: string)
    requires |s| >= 8 && forall k :: 0 <= k < 8 ==> s[k] == "https://"[k]
    ensures SchemeLength(s, 0) == 8
  {
    assert s[0..8] == "https://";
  }

  /** A text that starts with `https://`, a host of `h` characters and a
      path ending at `e` on a character other than a dot: the first URL
      found is `s[..e]`. */
  lemma FirstUrlOver(p: Pattern, s: string, h: nat, e: nat)
    requires SchemeLength(s, 0) == 8 && 0 < h && 8 + h <= e <= |s|
    requires HostRun(s, 8) == h && PathRun(p, s, 8 + h) == e - 8 - h
    requires s[e - 1] != '.'
    ensures Urls(p, s, 0) == [s[..e]] + Urls(p, s, e)
  {
    assert StopAtEnd(p, s, 0, 8, e) == e;
    assert MatchStop(p, s, 0) == e;
    assert MatchEnd(p, s, 0) == Some(e);
    assert s[0..e] == s[..e];
  }

  lemma FirstLinkOfSurvivor(u: string, rest: seq<string>)
    requires Survives(u)
    ensures FirstLink([u] + rest) == Some(Rewrite(u))
  {
    assert ([u] + rest)[0] == u;
  }

  lemma AbsentCharNotContained(s: string, sub: string, c: char)
    requires c in sub && c !in s
    ensures !Contains(s, sub)
  {
    var j :| 0 <= j < |sub| && sub[j] == c;
    forall k | 0 <= k && k + |sub| <= |s| ensures !OccursAt(s, sub, k) {
      assert s[k..k + |sub|][j] == s[k + j];
      assert s[k + j] in s;
    }
  }

  lemma LowerCaseUnchanged(s: string)
    requires forall c :: c in s ==> !('A' <= c <= 'Z')
    ensures ToLower(s) == s
  {
    assert forall i :: 0 <= i < |s| ==> s[i] in s;
  }

  /** When `sep` occurs in `u` only at `i`, `u.split(sep)[-1]` is what
      follows it. */
  lemma LastPieceOfOnlyOccurrence(u: string, sep: string, i: nat)
    requires sep != [] && OccursAt(u, sep, i)
    requires forall k :: OccursAt(u, sep, k) ==> k == i
    ensures LastPiece(u, sep) == u[i + |sep|..]
  {
    IndexOfOnlyOccurrence(u, sep, i);
    NothingAfterOnlyOccurrence(u, sep, i);
    LastPieceStep(u, sep, i);
  }

  /** One step of `split`: after the first occurrence, split what remains. */
  lemma LastPieceStep(u: string, sep: string, i: nat)
    requires sep != [] && IndexOf(u, sep) == Some(i)
    ensures LastPiece(u, sep) == LastPiece(u[i + |sep|..], sep)
  {
    assert LastPiece(u, sep) == LastPieceFound(u, sep, Some(i));
    LastPieceFoundAt(u, sep, i);
  }

  lemma IndexOfOnlyOccurrence(u: string, sep: string, i: nat)
    requires OccursAt(u, sep, i)
    requires forall k :: OccursAt(u, sep, k) ==> k == i
    ensures IndexOf(u, sep) == Some(i)
  {
  }

  lemma NothingAfterOnlyOccurrence(u: string, sep: string, i: nat)
    requires sep != [] && OccursAt(u, sep, i)
    requires forall k :: OccursAt(u, sep, k) ==> k == i
    ensures LastPiece(u[i + |sep|..], sep) == u[i + |sep|..]
  {
    NoOccurrenceAfterOnly(u, sep, i);
  }

  lemma NoOccurrenceAfterOnly(u: string, sep: string, i: nat)
    requires sep != [] && OccursAt(u, sep, i)
    requires forall k :: OccursAt(u, sep, k) ==> k == i
    ensures !Contains(u[i + |sep|..], sep)
  {
    var rest := u[i + |sep|..];
    assert rest == u[i + |sep|..|u|];
    forall k | OccursAt(rest, sep, k) ensures false {
      OccursInSlice(u, i + |sep|, |u|, sep, k);
    }
  }

  /** `s[m]` is the last occurrence of `c` in `s`. */
  predicate LastSepAt(s: string, c: char, m: nat)
  {
    m < |s| && s[m] == c && forall j :: m < j < |s| ==> s[j] != c
  }

  /** `s.split(c)[-1]` is what follows the last `c` of `s`. */
  lemma {:induction false} LastPieceAfterLastSep(s: string, c: char, m: nat)
    requires LastSepAt(s, c, m)
    ensures LastPiece(s, [c]) == s[m + 1..]
    decreases |s|
  {
    OccursAtSingle(s, c, m);
    var i := IndexOf(s, [c]).value;
    LastPieceStep(s, [c], i);
    if i == m {
      NoSepAfterLast(s, c, m);
    } else {
      var rest := s[i + 1..];
      LastSepInTail(s, rest, c, m, i);
      LastPieceAfterLastSep(rest, c, m - i - 1);
    }
  }

  lemma LastSepInTail(s: string, rest: string, c: char, m: nat, i: nat)
    requires i < m && LastSepAt(s, c, m) && rest == s[i + 1..]
    ensures LastSepAt(rest, c, m - i - 1) && rest[m - i..] == s[m + 1..]
  {
    assert forall j :: 0 <= j < |rest| ==> rest[j] == s[i + 1 + j];
  }

  lemma NoSepAfterLast(s: string, c: char, m: nat)
    requires LastSepAt(s, c, m)
    ensures !Contains(s[m + 1..], [c])
  {
    var rest := s[m + 1..];
    forall k ensures !OccursAt(rest, [c], k) {
      OccursAtSingle(rest, c, k);
      if 0 <= k < |rest| { assert rest[k] == s[m + 1 + k]; }
    }
  }

  // ---------------------------------------------------------------------
  // The two YouTube shapes
  // ---------------------------------------------------------------------

  /** A video identifier: word characters and dashes. */
  predicate IsVideoId(id: string)
  {
    id != [] && forall k :: 0 <= k < |id| ==> IsWordChar(id[k]) || id[k] == '-'
  }

  const ShortPrefix := "https://youtu.be/"
  const WatchPage := "https://www.youtube.com/watch"
  const WatchPrefix := "https://www.youtube.com/watch?v="

  lemma ShortPrefixChars()
    ensures forall k :: 0 <= k < 8 ==> ShortPrefix[k] == "https://"[k]
    ensures forall k :: 8 <= k < 16 ==> IsHostChar(ShortPrefix[k])
    ensures ShortPrefix[16] == '/' && forall k :: 0 <= k < 17 && k != 13 ==> ShortPrefix[k] != '.'
    ensures ShortPrefix[6] == '/'
  {
  }

  lemma ShortUrl(p: Pattern, id: string)
    requires IsVideoId(id)
    ensures Urls(p, ShortPrefix + id, 0) == [ShortPrefix + id]
  {
    var s := ShortPrefix + id;
    ShortPrefixChars();
    assert forall k :: 0 <= k < 17 ==> s[k] == ShortPrefix[k];
    assert forall j :: 0 <= j < |id| ==> s[17 + j] == id[j];
    HttpsAtStart(s);
    HostRunOver(s, 8, 16);
    PathRunOver(p, s, 16, |s|);
    FirstUrlOver(p, s, 8, |s|);
    assert s[..|s|] == s;
  }

  lemma ShortRewrite(id: string)
    requires IsVideoId(id)
    ensures Rewrite(ShortPrefix + id) == EmbedPrefix + id
  {
    ShortNotWatch(id);
    ShortIsYoutuBe(id);
    ShortIdIsLastSegment(id);
  }

  lemma ShortNotWatch(id: string)
    requires IsVideoId(id)
    ensures !Contains(ShortPrefix + id, "youtube.com/watch")
  {
    var s := ShortPrefix + id;
    var w := "youtube.com/watch";
    assert w[0] == 'y' && w[7] == '.';
    forall k | 0 <= k && k + 17 <= |s| ensures !OccursAt(s, w, k) {
      assert s[k..k + 17][7] == s[k + 7];
      assert s[k..k + 17][0] == s[k];
      if k + 7 < 17 {
        assert s[k + 7] == ShortPrefix[k + 7];
        assert s[k] == ShortPrefix[k];
      } else {
        assert s[k + 7] == id[k + 7 - 17];
      }
    }
  }

  lemma ShortIsYoutuBe(id: string)
    ensures Contains(ShortPrefix + id, "youtu.be")
  {
    var s := ShortPrefix + id;
    assert s[8..16] == ShortPrefix[8..16];
    assert OccursAt(s, "youtu.be", 8);
  }

  lemma ShortIdIsLastSegment(id: string)
    requires IsVideoId(id)
    ensures ShortVideoId(ShortPrefix + id) == id
  {
    var s := ShortPrefix + id;
    assert s[16] == '/';
    assert forall j :: 0 <= j < |id| ==> s[17 + j] == id[j];
    assert LastSepAt(s, '/', 16);
    LastPieceAfterLastSep(s, '/', 16);
    assert s[17..] == id;
  }

  /** A `youtu.be` short link becomes the embeddable player URL with the
      same video identifier, under every pattern. */
  lemma ShortLinkEmbedsVideoId(p: Pattern, id: string)
    requires IsVideoId(id) && Survives(ShortPrefix + id)
    ensures ExtractProjectUrl(p, ShortPrefix + id) == Some(EmbedPrefix + id)
  {
    ShortUrl(p, id);
    ShortRewrite(id);
    FirstLinkOfSurvivor(ShortPrefix + id, []);
    assert [ShortPrefix + id] + [] == [ShortPrefix + id];
  }

  lemma WatchPrefixChars()
    ensures forall k :: 0 <= k < 8 ==> WatchPrefix[k] == "https://"[k]
    ensures forall k :: 8 <= k < 23 ==> IsHostChar(WatchPrefix[k])
    ensures forall k :: 23 <= k < 29 ==> IsPathChar(FilterPattern, WatchPrefix[k])
    ensures forall p: Pattern :: p.withQuery ==> forall k :: 23 <= k < 32 ==> IsPathChar(p, WatchPrefix[k])
    ensures WatchPrefix[23] == '/' && WatchPrefix[28] == 'h' && WatchPrefix[29] == '?'
  {
  }

  lemma WatchPrefixMarks()
    ensures forall k :: 0 <= k < 32 && k != 31 ==> WatchPrefix[k] != '='
    ensures WatchPrefix[30] == 'v' && WatchPrefix[31] == '='
  {
  }

  lemma WatchPrefixPage()
    ensures WatchPrefix[12..29] == "youtube.com/watch" && WatchPrefix[..29] == WatchPage
  {
    assert WatchPrefix == WatchPage + "?v=";
  }

  lemma WatchPageLetters()
    ensures forall k :: 0 <= k < 29 ==> !('A' <= WatchPrefix[k] <= 'Z')
  {
  }

  lemma WatchPageNoExcludedLetter()
    ensures forall k :: 0 <= k < 29 ==> WatchPrefix[k] !in "xdrlvg"
  {
  }

  lemma WatchPageNoQuery()
    ensures forall k :: 0 <= k < 29 ==> WatchPrefix[k] != '=' && WatchPrefix[k] != '&'
  {
  }

  /** A lower-case URL without any of the letters x, d, r, l, v and g
      cannot contain an excluded word. */
  lemma SurvivesWithoutLetters(u: string)
    requires forall k :: 0 <= k < |u| ==> !('A' <= u[k] <= 'Z')
    requires forall k :: 0 <= k < |u| ==> u[k] !in "xdrlvg"
    ensures Survives(u)
  {
    assert ToLower(u) == u;
    AbsentCharNotContained(u, "arxiv.org", 'x');
    AbsentCharNotContained(u, "doi.org", 'd');
    AbsentCharNotContained(u, "creativecommons.org", 'r');
    AbsentCharNotContained(u, "license", 'l');
    AbsentCharNotContained(u, "overleaf.com", 'v');
    AbsentCharNotContained(u, "github.com", 'g');
  }

  /** A watch URL with neither `=` nor `&` is its own video identifier. */
  lemma RewriteWatchWithoutQuery(u: string)
    requires OccursAt(u, "youtube.com/watch", 12)
    requires forall k :: 0 <= k < |u| ==> u[k] != '=' && u[k] != '&'
    ensures Rewrite(u) == EmbedPrefix + u
  {
    AbsentCharNotContained(u, "v=", '=');
    AbsentCharNotContained(u, "&", '&');
  }

  /** As written, a `youtube.com/watch?v=<id>` link is cut at `?` by the URL
      pattern, so the rewrite never sees the identifier: whatever the video,
      the result is the player URL of the page path itself. */
  lemma WatchLinkLosesVideoId(p: Pattern, id: string)
    requires !p.withQuery
    ensures ExtractProjectUrl(p, WatchPrefix + id) == Some(EmbedPrefix + WatchPage)
  {
    var s := WatchPrefix + id;
    WatchUrlAsWritten(p, id);
    var u := s[..29];
    WatchPageIsLink(u);
    FirstLinkOfSurvivor(u, Urls(p, s, 29));
  }

  lemma WatchUrlAsWritten(p: Pattern, id: string)
    requires !p.withQuery
    ensures Urls(p, WatchPrefix + id, 0) == [(WatchPrefix + id)[..29]] + Urls(p, WatchPrefix + id, 29)
    ensures (WatchPrefix + id)[..29] == WatchPage
    ensures forall k :: 0 <= k < 29 ==> (WatchPrefix + id)[k] == WatchPrefix[k]
  {
    var s := WatchPrefix + id;
    WatchPrefixChars();
    assert forall k :: 0 <= k < 32 ==> s[k] == WatchPrefix[k];
    HttpsAtStart(s);
    HostRunOver(s, 8, 23);
    PathRunOver(p, s, 23, 29);
    FirstUrlOver(p, s, 15, 29);
  }

  /** The page part of a watch URL survives the exclusion rules and is
      rewritten to a player URL that embeds it whole. */
  lemma WatchPageIsLink(u: string)
    requires |u| == 29 && forall k :: 0 <= k < 29 ==> u[k] == WatchPrefix[k]
    ensures Survives(u) && Rewrite(u) == EmbedPrefix + u
  {
    WatchPageLetters();
    WatchPageNoExcludedLetter();
    WatchPageNoQuery();
    SurvivesWithoutLetters(u);
    WatchPrefixPage();
    assert u[12..29] == WatchPrefix[12..29];
    RewriteWatchWithoutQuery(u);
  }

  lemma WatchUrl(p: Pattern, id: string)
    requires p.withQuery && IsVideoId(id)
    ensures Urls(p, WatchPrefix + id, 0) == [WatchPrefix + id]
  {
    var s := WatchPrefix + id;
    WatchPrefixChars();
    assert forall k :: 0 <= k < 32 ==> s[k] == WatchPrefix[k];
    assert forall j :: 0 <= j < |id| ==> s[32 + j] == id[j];
    HttpsAtStart(s);
    HostRunOver(s, 8, 23);
    PathRunOver(p, s, 23, |s|);
    FirstUrlOver(p, s, 15, |s|);
    assert s[..|s|] == s;
  }

  lemma WatchRewrite(id: string)
    requires IsVideoId(id)
    ensures Rewrite(WatchPrefix + id) == EmbedPrefix + id
  {
    WatchHasPage(id);
    WatchIdAfterV(id);
    VideoIdHasNoAmpersand(id);
  }

  lemma VideoIdHasNoAmpersand(id: string)
    requires IsVideoId(id)
    ensures !Contains(id, "&")
  {
    assert '&' !in id by {
      forall j | 0 <= j < |id| ensures id[j] != '&' { }
    }
    AbsentCharNotContained(id, "&", '&');
  }

  lemma WatchHasPage(id: string)
    ensures OccursAt(WatchPrefix + id, "youtube.com/watch", 12)
  {
    var s := WatchPrefix + id;
    WatchPrefixPage();
    assert s[12..29] == WatchPrefix[12..29];
  }

  /** The only `v=` of a watch link is the one before the identifier. */
  lemma WatchIdAfterV(id: string)
    requires IsVideoId(id)
    ensures LastPiece(WatchPrefix + id, "v=") == id
  {
    var s := WatchPrefix + id;
    WatchPrefixMarks();
    assert forall k :: 0 <= k < 32 ==> s[k] == WatchPrefix[k];
    assert forall j :: 0 <= j < |id| ==> s[32 + j] == id[j];
    assert OccursAt(s, "v=", 30) by {
      assert s[30..32] == "v=";
    }
    forall k | OccursAt(s, "v=", k) ensures k == 30 {
      assert s[k..k + 2][1] == s[k + 1] == '=';
    }
    LastPieceOfOnlyOccurrence(s, "v=", 30);
    assert s[32..] == id;
  }

  /** With the query characters admitted, the same link yields the player
      URL of the video it names. */
  lemma WatchLinkEmbedsVideoId(p: Pattern, id: string)
    requires p.withQuery && IsVideoId(id) && Survives(WatchPrefix + id)
    ensures ExtractProjectUrl(p, WatchPrefix + id) == Some(EmbedPrefix + id)
  {
    WatchUrl(p, id);
    WatchRewrite(id);
    FirstLinkOfSurvivor(WatchPrefix + id, []);
    assert [WatchPrefix + id] + [] == [WatchPrefix + id];
  }
}
