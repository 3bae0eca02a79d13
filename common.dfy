/** Value types and the Python string and list operations the pipeline relies on:
    substring search, `split`, `replace`, `lower`, `join`, slicing and
    integer formatting, each stated against an independent description. */
module Common {

  datatype Option<+T> = None | Some(value: T)

  function Min(a: int, b: int): int { if a <= b then a else b }
  function Max(a: int, b: int): int { if a <= b then b else a }

  // ---------------------------------------------------------------------
  // Substring search
  // ---------------------------------------------------------------------

  /** `sub` occurs in `s` starting at index `k`. */
  predicate OccursAt(s: string, sub: string, k: int)
  {
    0 <= k && k + |sub| <= |s| && s[k..k + |sub|] == sub
  }

  lemma OccursAtTail(s: string, sub: string, k: nat)
    requires s != []
    ensures OccursAt(s[1..], sub, k) <==> OccursAt(s, sub, k + 1)
  {
    if 0 <= k && k + 1 + |sub| <= |s| {
      assert s[1..][k..k + |sub|] == s[k + 1..k + 1 + |sub|];
    }
  }

  /** Python `s.find(sub)` as an option: the first index where `sub` occurs. */
  function IndexOf(s: string, sub: string): (r: Option<nat>)
    ensures r.Some? ==> OccursAt(s, sub, r.value)
    ensures r.Some? ==> forall k :: 0 <= k < r.value ==> !OccursAt(s, sub, k)
    ensures r.None? ==> forall k :: !OccursAt(s, sub, k)
    decreases |s|
  {
    if |sub| <= |s| && s[..|sub|] == sub then Some(0)
    else if s == [] then None
    else
      var r := IndexOf(s[1..], sub);
      assert forall k: nat :: OccursAt(s[1..], sub, k) <==> OccursAt(s, sub, k + 1) by {
        forall k: nat ensures OccursAt(s[1..], sub, k) <==> OccursAt(s, sub, k + 1) {
          OccursAtTail(s, sub, k);
        }
      }
      assert !OccursAt(s, sub, 0);
      match r
      case None =>
        assert forall k :: !OccursAt(s, sub, k) by {
          forall k ensures !OccursAt(s, sub, k) {
            if k > 0 { assert !OccursAt(s[1..], sub, k - 1); }
          }
        }
        None
      case Some(i) =>
        assert forall k :: 0 <= k < i + 1 ==> !OccursAt(s, sub, k) by {
          forall k | 0 <= k < i + 1 ensures !OccursAt(s, sub, k) {
            if k > 0 { assert !OccursAt(s[1..], sub, k - 1); }
          }
        }
        Some(i + 1)
  }

  /** An occurrence with none before it is the one `IndexOf` finds. */
  lemma IndexOfFirst(s: string, sub: string, i: nat)
    requires OccursAt(s, sub, i) && forall k :: 0 <= k < i ==> !OccursAt(s, sub, k)
    ensures IndexOf(s, sub) == Some(i)
  {
  }

  /** Python `sub in s`. */
  predicate Contains(s: string, sub: string)
    ensures Contains(s, sub) <==> exists k :: OccursAt(s, sub, k)
  {
    IndexOf(s, sub).Some?
  }

  lemma OccursInSuffix(a: string, b: string, sub: string, k: int)
    requires OccursAt(b, sub, k)
    ensures OccursAt(a + b, sub, |a| + k)
  {
    assert (a + b)[|a| + k..|a| + k + |sub|] == b[k..k + |sub|];
  }

  lemma OccursInPrefix(a: string, b: string, sub: string, k: int)
    requires OccursAt(a, sub, k)
    ensures OccursAt(a + b, sub, k)
  {
    assert (a + b)[k..k + |sub|] == a[k..k + |sub|];
  }

  lemma OccursInSlice(s: string, lo: int, hi: int, sub: string, k: int)
    requires 0 <= lo <= hi <= |s| && OccursAt(s[lo..hi], sub, k)
    ensures OccursAt(s, sub, lo + k)
  {
    var t := s[lo..hi];
    forall j | 0 <= j < |sub| ensures s[lo + k + j] == sub[j] {
      assert t[k..k + |sub|][j] == sub[j];
      assert t[k + j] == s[lo + k + j];
    }
    assert s[lo + k..lo + k + |sub|] == sub;
  }

  /** An occurrence of a one-character pattern is an index holding that character. */
  lemma OccursAtSingle(s: string, c: char, k: int)
    ensures OccursAt(s, [c], k) <==> 0 <= k < |s| && s[k] == c
  {
    if 0 <= k < |s| {
      assert s[k..k + 1] == [s[k]];
    }
  }

  // ---------------------------------------------------------------------
  // split, replace, lower, join
  // ---------------------------------------------------------------------

  /** The text before the first occurrence of `sep` contains no `sep`. */
  lemma NothingBeforeFirst(s: string, sep: string, i: nat)
    requires sep != [] && IndexOf(s, sep) == Some(i)
    ensures !Contains(s[..i], sep)
  {
    forall k | OccursAt(s[..i], sep, k) ensures false {
      assert s[0..i] == s[..i];
      OccursInSlice(s, 0, i, sep, k);
    }
  }

  /** Python `s.split(sep)`: the pieces between the non-overlapping
      occurrences of `sep`, found from the left. Joining them with `sep`
      gives `s` back, and no piece contains `sep`. */
  function SplitAll(s: string, sep: string): (r: seq<string>)
    requires sep != []
    ensures r != []
    ensures forall k :: 0 <= k < |r| ==> !Contains(r[k], sep)
    ensures Join(sep, r) == s
    decreases |s|
  {
    match IndexOf(s, sep)
    case None => [s]
    case Some(i) =>
      NothingBeforeFirst(s, sep, i);
      var rest := SplitAll(s[i + |sep|..], sep);
      var r := [s[..i]] + rest;
      assert r[1..] == rest;
      assert s == s[..i] + sep + s[i + |sep|..];
      r
  }

  /** Python `s.split(sep)[0]`: the text before the first occurrence of `sep`. */
  function FirstPiece(s: string, sep: string): (r: string)
    requires sep != []
    ensures |r| <= |s| && r == s[..|r|]
    ensures forall k :: 0 <= k < |r| ==> !OccursAt(s, sep, k)
    ensures !Contains(r, sep)
    ensures Contains(s, sep) ==> OccursAt(s, sep, |r|)
    ensures !Contains(s, sep) ==> r == s
  {
    match IndexOf(s, sep)
    case None => s
    case Some(i) =>
      NothingBeforeFirst(s, sep, i);
      s[..i]
  }

  /** `FirstPiece` is the first piece of `split`. */
  lemma FirstPieceIsFirstOfSplit(s: string, sep: string)
    requires sep != []
    ensures FirstPiece(s, sep) == SplitAll(s, sep)[0]
  {
  }

  /** Python `s.split(sep)[-1]`: the text after the last of the
      non-overlapping occurrences of `sep` found from the left. */
  function LastPiece(s: string, sep: string): (r: string)
    requires sep != []
    ensures |r| <= |s| && r == s[|s| - |r|..]
    ensures !Contains(r, sep)
    ensures !Contains(s, sep) ==> r == s
    decreases |s|, 1
  {
    LastPieceFound(s, sep, IndexOf(s, sep))
  }

  /** `LastPiece` once the first occurrence, if any, is known. */
  function LastPieceFound(s: string, sep: string, found: Option<nat>): (r: string)
    requires sep != []
    requires found.Some? ==> OccursAt(s, sep, found.value)
    requires found.None? ==> !Contains(s, sep)
    ensures |r| <= |s| && r == s[|s| - |r|..]
    ensures !Contains(r, sep)
    ensures !Contains(s, sep) ==> r == s
    decreases |s|, 0
  {
    match found
    case None => s
    case Some(i) =>
      var rest := s[i + |sep|..];
      var r := LastPiece(rest, sep);
      assert rest[|rest| - |r|..] == s[|s| - |r|..];
      assert Contains(s, sep) by {
        assert OccursAt(s, sep, i);
      }
      r
  }

  lemma LastPieceFoundAt(s: string, sep: string, i: nat)
    requires sep != [] && OccursAt(s, sep, i)
    ensures LastPieceFound(s, sep, Some(i)) == LastPiece(s[i + |sep|..], sep)
  {
  }

  /** `r` ends `s` and an occurrence of `sep` comes right before it. */
  predicate FollowsSeparator(s: string, sep: string, r: string)
  {
    |r| + |sep| <= |s| && OccursAt(s, sep, |s| - |r| - |sep|)
  }

  /** When `s` contains `sep`, its last piece follows an occurrence of `sep`. */
  lemma {:induction false} LastPieceFollowsSeparator(s: string, sep: string)
    requires sep != [] && Contains(s, sep)
    ensures FollowsSeparator(s, sep, LastPiece(s, sep))
    decreases |s|
  {
    var i := IndexOf(s, sep).value;
    var rest := s[i + |sep|..];
    assert LastPiece(s, sep) == LastPieceFound(s, sep, Some(i));
    LastPieceFoundAt(s, sep, i);
    if Contains(rest, sep) {
      LastPieceFollowsSeparator(rest, sep);
    }
    LastPieceShift(s, sep, i, LastPiece(s, sep));
  }

  /** A piece that follows an occurrence in, or is all of, the text after
      the occurrence at `i` follows an occurrence in `s`. */
  lemma LastPieceShift(s: string, sep: string, i: nat, r: string)
    requires sep != [] && OccursAt(s, sep, i)
    requires FollowsSeparator(s[i + |sep|..], sep, r) || r == s[i + |sep|..]
    ensures FollowsSeparator(s, sep, r)
  {
    var rest := s[i + |sep|..];
    if FollowsSeparator(rest, sep, r) {
      assert s[i + |sep|..|s|] == rest;
      OccursInSlice(s, i + |sep|, |s|, sep, |rest| - |r| - |sep|);
    }
  }

  /** `LastPiece` is the last piece of `split`. */
  lemma {:induction false} LastPieceIsLastOfSplit(s: string, sep: string)
    requires sep != []
    ensures var pieces := SplitAll(s, sep); LastPiece(s, sep) == pieces[|pieces| - 1]
    decreases |s|
  {
    match IndexOf(s, sep)
    case None =>
    case Some(i) =>
      LastPieceIsLastOfSplit(s[i + |sep|..], sep);
  }

  /** Python `s.replace(pat, rep)`: every non-overlapping occurrence, from the left. */
  function ReplaceAll(s: string, pat: string, rep: string): string
    requires pat != []
    decreases |s|, 1
  {
    ReplaceFound(s, pat, rep, IndexOf(s, pat))
  }

  /** `ReplaceAll` once the first occurrence, if any, is known. */
  function ReplaceFound(s: string, pat: string, rep: string, found: Option<nat>): string
    requires pat != [] && (found.Some? ==> found.value + |pat| <= |s|)
    decreases |s|, 0
  {
    match found
    case None => s
    case Some(i) => s[..i] + rep + ReplaceAll(s[i + |pat|..], pat, rep)
  }

  lemma ReplaceFoundAt(s: string, pat: string, rep: string, i: nat)
    requires pat != [] && i + |pat| <= |s|
    ensures ReplaceFound(s, pat, rep, Some(i)) == s[..i] + rep + ReplaceAll(s[i + |pat|..], pat, rep)
  {
  }

  /** `s.replace(pat, rep) == rep.join(s.split(pat))`. */
  lemma {:induction false} ReplaceIsJoinOfSplit(s: string, pat: string, rep: string)
    requires pat != []
    ensures ReplaceAll(s, pat, rep) == Join(rep, SplitAll(s, pat))
    decreases |s|
  {
    match IndexOf(s, pat)
    case None =>
    case Some(i) =>
      var tail := s[i + |pat|..];
      ReplaceIsJoinOfSplit(tail, pat, rep);
      var pieces := [s[..i]] + SplitAll(tail, pat);
      assert pieces[1..] == SplitAll(tail, pat);
      assert SplitAll(s, pat) == pieces;
  }

  /** `replace` leaves a text without the pattern as it is. */
  lemma ReplaceAbsent(s: string, pat: string, rep: string)
    requires pat != [] && !Contains(s, pat)
    ensures ReplaceAll(s, pat, rep) == s
  {
  }

  /** `replace` copies the text up to the first occurrence, then the
      replacement, then carries on after the occurrence. */
  lemma ReplaceFirst(s: string, pat: string, rep: string, i: nat)
    requires pat != [] && IndexOf(s, pat) == Some(i)
    ensures ReplaceAll(s, pat, rep) == s[..i] + rep + ReplaceAll(s[i + |pat|..], pat, rep)
  {
    assert ReplaceAll(s, pat, rep) == ReplaceFound(s, pat, rep, Some(i));
    ReplaceFoundAt(s, pat, rep, i);
  }

  function ToLowerChar(c: char): char
  {
    if 'A' <= c <= 'Z' then (c as int + 32) as char else c
  }

  /** Python `str.lower()` restricted to ASCII letters. */
  function ToLower(s: string): (r: string)
    ensures |r| == |s|
    ensures forall i :: 0 <= i < |s| ==> r[i] == ToLowerChar(s[i])
  {
    seq(|s|, i requires 0 <= i < |s| => ToLowerChar(s[i]))
  }

  /** Python `sep.join(parts)`. */
  function Join(sep: string, parts: seq<string>): string
  {
    if parts == [] then ""
    else if |parts| == 1 then parts[0]
    else parts[0] + sep + Join(sep, parts[1..])
  }

  /** Every joined part can be found again in the joined text. */
  lemma {:induction false} JoinContainsPart(sep: string, parts: seq<string>, k: nat)
    requires k < |parts|
    ensures Contains(Join(sep, parts), parts[k])
  {
    if |parts| == 1 {
      assert OccursAt(parts[0], parts[0], 0);
    } else if k == 0 {
      assert OccursAt(parts[0], parts[0], 0);
      OccursInPrefix(parts[0], sep + Join(sep, parts[1..]), parts[0], 0);
      assert parts[0] + sep + Join(sep, parts[1..]) == parts[0] + (sep + Join(sep, parts[1..]));
    } else {
      JoinContainsPart(sep, parts[1..], k - 1);
      var j :| OccursAt(Join(sep, parts[1..]), parts[k], j);
      OccursInSuffix(parts[0] + sep, Join(sep, parts[1..]), parts[k], j);
    }
  }

  // ---------------------------------------------------------------------
  // Slicing and subsequences
  // ---------------------------------------------------------------------

  /** Python's `s[:n]` for any integer `n`; a negative `n` drops `-n`
      elements from the end. */
  function PyTake<T>(s: seq<T>, n: int): (r: seq<T>)
    ensures |r| <= |s| && r == s[..|r|]
    ensures n >= 0 ==> |r| == Min(n, |s|)
    ensures n < 0 ==> |r| == Max(0, |s| + n)
  {
    if n >= |s| then s
    else if n >= 0 then s[..n]
    else if |s| + n >= 0 then s[..|s| + n]
    else []
  }

  /** `a` can be obtained from `b` by deleting elements. */
  predicate IsSubseq<T(==)>(a: seq<T>, b: seq<T>)
    decreases |b|
  {
    a == [] || (b != [] && if a[0] == b[0] then IsSubseq(a[1..], b[1..]) else IsSubseq(a, b[1..]))
  }

  /** `[x for x in s if f(x)]`. */
  function Filter<T(==,!new)>(s: seq<T>, f: T -> bool): (r: seq<T>)
    ensures IsSubseq(r, s)
    ensures forall x :: x in r <==> x in s && f(x)
    ensures forall x :: multiset(r)[x] == if f(x) then multiset(s)[x] else 0
  {
    if s == [] then []
    else
      var rest := Filter(s[1..], f);
      assert forall x :: x in s <==> x == s[0] || x in s[1..];
      assert s == [s[0]] + s[1..];
      assert multiset(s) == multiset{s[0]} + multiset(s[1..]);
      if f(s[0]) then
        assert ([s[0]] + rest)[1..] == rest;
        [s[0]] + rest
      else rest
  }

  lemma {:induction false} PrefixOfSubseq<T>(a: seq<T>, b: seq<T>, n: nat)
    requires IsSubseq(a, b) && n <= |a|
    ensures IsSubseq(a[..n], b)
    decreases |b|
  {
    if n == 0 || a == [] {
      assert a[..n] == [];
    } else if a[0] == b[0] {
      PrefixOfSubseq(a[1..], b[1..], n - 1);
      assert a[..n][1..] == a[1..][..n - 1];
    } else {
      PrefixOfSubseq(a, b[1..], n);
    }
  }

  /** Deleting elements adds none: every element of a subsequence is an
      element of the whole. */
  lemma {:induction false} SubseqMembers<T>(a: seq<T>, b: seq<T>)
    requires IsSubseq(a, b)
    ensures forall x :: x in a ==> x in b
    decreases |b|
  {
    if a == [] {
    } else if a[0] == b[0] {
      SubseqMembers(a[1..], b[1..]);
      forall x | x in a ensures x in b {
        if x != a[0] {
          assert x in a[1..];
        }
      }
    } else {
      SubseqMembers(a, b[1..]);
    }
  }

  // ---------------------------------------------------------------------
  // First match of a loop that returns early
  // ---------------------------------------------------------------------

  /** The position of the first element of `s` that satisfies `f`. */
  function FirstWhere<T>(s: seq<T>, f: T -> bool): (r: Option<nat>)
    ensures r.Some? ==> r.value < |s|
  {
    if s == [] then None
    else if f(s[0]) then Some(0)
    else
      match FirstWhere(s[1..], f)
      case None => None
      case Some(k) => Some(k + 1)
  }

  lemma {:induction false} FirstWhereMeaning<T>(s: seq<T>, f: T -> bool)
    ensures FirstWhere(s, f).None? <==> forall k :: 0 <= k < |s| ==> !f(s[k])
    ensures FirstWhere(s, f).Some? ==>
      var r := FirstWhere(s, f).value;
      f(s[r]) && forall j :: 0 <= j < r ==> !f(s[j])
  {
    if s != [] && !f(s[0]) {
      var rest := s[1..];
      FirstWhereMeaning(rest, f);
      assert forall j :: 0 < j < |s| ==> s[j] == rest[j - 1];
    }
  }

  /** The first match in `xs + ys` is the first in `xs`, or else the first
      in `ys`, shifted past `xs`. */
  lemma {:induction false} FirstWhereAppend<T>(xs: seq<T>, ys: seq<T>, f: T -> bool)
    ensures FirstWhere(xs + ys, f) ==
      match FirstWhere(xs, f)
      case Some(k) => Some(k)
      case None => (match FirstWhere(ys, f) case None => None case Some(k) => Some(|xs| + k))
  {
    if xs == [] {
      assert xs + ys == ys;
    } else {
      assert (xs + ys)[0] == xs[0] && (xs + ys)[1..] == xs[1..] + ys;
      FirstWhereAppend(xs[1..], ys, f);
    }
  }

  /** The image under `g` of the first element of `s` that satisfies `f`. */
  function FirstMapped<T, U>(s: seq<T>, f: T -> bool, g: T -> U): Option<U>
  {
    match FirstWhere(s, f)
    case None => None
    case Some(k) => Some(g(s[k]))
  }

  /** The first mapped match of `xs + ys` is that of `xs` when `xs` has one,
      and that of `ys` otherwise. */
  lemma FirstMappedAppend<T, U>(xs: seq<T>, ys: seq<T>, f: T -> bool, g: T -> U)
    ensures FirstMapped(xs + ys, f, g) ==
      if FirstMapped(xs, f, g).Some? then FirstMapped(xs, f, g) else FirstMapped(ys, f, g)
  {
    FirstWhereAppend(xs, ys, f);
    match FirstWhere(xs, f)
    case Some(k) =>
      assert (xs + ys)[k] == xs[k];
    case None =>
      if FirstWhere(ys, f).Some? {
        var k := FirstWhere(ys, f).value;
        assert (xs + ys)[|xs| + k] == ys[k];
      }
  }

  // ---------------------------------------------------------------------
  // Decimal integers (Python f-string formatting of `int`)
  // ---------------------------------------------------------------------

  predicate IsDigit(c: char) { '0' <= c <= '9' }

  predicate AllDigits(s: string) { forall i :: 0 <= i < |s| ==> IsDigit(s[i]) }

  function DigitChar(d: nat): (c: char)
    requires d < 10
    ensures IsDigit(c) && c as int - '0' as int == d
  {
    ('0' as int + d) as char
  }

  /** Decimal digits of `n`, without leading zeros. */
  function NatToString(n: nat): (r: string)
    ensures r != [] && AllDigits(r)
  {
    if n < 10 then [DigitChar(n)] else NatToString(n / 10) + [DigitChar(n % 10)]
  }

  /** Python's `str(n)`. */
  function IntToString(n: int): (r: string)
    ensures r != []
  {
    if n < 0 then "-" + NatToString(-n) else NatToString(n)
  }

  /** Reads a string of decimal digits back as a number. */
  function ParseNat(s: string): nat
    requires AllDigits(s)
  {
    if s == [] then 0 else ParseNat(s[..|s| - 1]) * 10 + (s[|s| - 1] as int - '0' as int)
  }

  lemma {:induction false} ParseNatToString(n: nat)
    ensures ParseNat(NatToString(n)) == n
  {
    var s := NatToString(n);
    if n >= 10 {
      ParseNatToString(n / 10);
      assert s[..|s| - 1] == NatToString(n / 10);
    }
  }

  lemma NatToStringInjective(a: nat, b: nat)
    requires NatToString(a) == NatToString(b)
    ensures a == b
  {
    ParseNatToString(a);
    ParseNatToString(b);
  }
}
