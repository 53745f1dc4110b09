/** The wildcard matcher of the directory search (pattern_matching in ff.c).

    A C string is its characters, none of them 0; reading at its end gives the
    terminating 0.  Pointers are indexes.  Upper-casing is a parameter: the
    code page decides it, and it maps only 0 to 0. */
module Wildcard {
  type CString = s: seq<nat> | forall i :: 0 <= i < |s| ==> s[i] != 0

  const QUESTION: nat := 63
  const STAR: nat := 42

  ghost predicate UpperCases(up: nat -> nat) {
    forall c :: up(c) == 0 <==> c == 0
  }

  predicate IsWild(c: nat) { c == QUESTION || c == STAR }

  /** The character a pointer sees. */
  function At(s: CString, i: nat): (c: nat)
    ensures c == 0 <==> i >= |s|
  {
    if i < |s| then s[i] else 0
  }

  /** What a pattern means: `*` stands for any run of characters, `?` for any
      one, everything else for itself whatever the case. */
  ghost predicate Match(up: nat -> nat, pat: CString, p: nat, nam: CString, n: nat)
    requires p <= |pat| && n <= |nam|
    decreases |pat| - p
  {
    if p == |pat| then n == |nam|
    else if pat[p] == '*' as nat then exists q, k :: q == p + 1 && n <= k <= |nam| && Match(up, pat, q, nam, k)
    else n < |nam| && (pat[p] == '?' as nat || up(pat[p]) == up(nam[n])) && Match(up, pat, p + 1, nam, n + 1)
  }

  /** Match after dropping `skip` characters, or at least that many with `inf`. */
  ghost predicate MatchFrom(up: nat -> nat, pat: CString, p: nat, nam: CString, n: nat, skip: nat, inf: bool)
    requires p <= |pat| && n <= |nam|
  {
    if inf then exists k :: n + skip <= k <= |nam| && Match(up, pat, p, nam, k)
    else n + skip <= |nam| && Match(up, pat, p, nam, n + skip)
  }

  lemma StarIsARun(up: nat -> nat, pat: CString, p: nat, nam: CString, n: nat)
    requires p < |pat| && n <= |nam| && pat[p] == STAR
    ensures Match(up, pat, p, nam, n) <==> MatchFrom(up, pat, p + 1, nam, n, 0, true)
  {
    var q := p + 1;
    if forall j :: n <= j <= |nam| ==> !Match(up, pat, q, nam, j) { assert !Match(up, pat, p, nam, n); }
  }

  /** A block of wildcards in any order is its number of `?` and whether it holds a `*`. */
  lemma WildcardJoins(up: nat -> nat, pat: CString, p: nat, nam: CString, n: nat, skip: nat, inf: bool)
    requires p < |pat| && n <= |nam| && IsWild(pat[p])
    ensures MatchFrom(up, pat, p, nam, n, skip, inf) <==>
            if pat[p] == QUESTION then MatchFrom(up, pat, p + 1, nam, n, skip + 1, inf)
            else MatchFrom(up, pat, p + 1, nam, n, skip, true)
  {
    if pat[p] == QUESTION && inf {
      if MatchFrom(up, pat, p, nam, n, skip, inf) {
        var k :| n + skip <= k <= |nam| && Match(up, pat, p, nam, k);
        assert Match(up, pat, p + 1, nam, k + 1);
      }
      if MatchFrom(up, pat, p + 1, nam, n, skip + 1, inf) {
        var k :| n + skip + 1 <= k <= |nam| && Match(up, pat, p + 1, nam, k);
        assert Match(up, pat, p, nam, k - 1);
      }
    }
    if pat[p] == STAR {
      var q := p + 1;
      if MatchFrom(up, pat, p, nam, n, skip, inf) {
        var k :| n + skip <= k <= |nam| && Match(up, pat, p, nam, k);
        StarIsARun(up, pat, p, nam, k);
        var j :| k <= j <= |nam| && Match(up, pat, q, nam, j);
      }
      if MatchFrom(up, pat, q, nam, n, skip, true) { StarIsARun(up, pat, p, nam, n + skip); }
    }
  }

  /** Why giving up at the end of the name loses nothing: each character of the
      pattern before its first wildcard consumes one of the name. */
  lemma {:induction false} PlainCharactersConsume(up: nat -> nat, pat: CString, p: nat, q: nat, nam: CString, n: nat)
    requires p <= q <= |pat| && n <= |nam|
    requires forall i :: p <= i < q ==> !IsWild(pat[i])
    requires Match(up, pat, p, nam, n)
    ensures n + (q - p) <= |nam|
    decreases q - p
  {
    if p < q { PlainCharactersConsume(up, pat, p + 1, q, nam, n + 1); }
  }

  /** pattern_matching: the loops and branches of the source. */
  method PatternMatching(up: nat -> nat, pat: CString, p: nat, nam: CString, n: nat, skip: nat, inf: bool)
    returns (matched: bool)
    requires UpperCases(up)
    requires p <= |pat| && n <= |nam|
    ensures matched <==> MatchFrom(up, pat, p, nam, n, skip, inf)
    decreases |pat| - p
  {
    var left, from := skip, n;
    while left > 0
      invariant 0 <= left <= skip && from == n + (skip - left) <= |nam|
    {
      left := left - 1;
      if At(nam, from) == 0 { return false; }
      from := from + 1;
    }
    if At(pat, p) == 0 && inf {
      assert Match(up, pat, p, nam, |nam|);
      return true;
    }
    ghost var first := from;
    while true
      invariant n + skip == first <= from <= |nam|
      invariant !inf ==> from == first
      invariant forall k :: first <= k < from ==> !Match(up, pat, p, nam, k)
      decreases |nam| - from
    {
      var hit, nc := Attempt(up, pat, p, nam, from);
      if hit { return true; }
      if !inf || nc == 0 { return false; }
      from := from + 1;
    }
  }

  /** One pass of the source's `for (;;)`: the name from `from` on against the
      whole pattern.  A last character of 0 says that no later start can match. */
  method Attempt(up: nat -> nat, pat: CString, p: nat, nam: CString, from: nat)
    returns (hit: bool, nc: nat)
    requires UpperCases(up)
    requires p <= |pat| && from <= |nam|
    ensures hit <==> Match(up, pat, p, nam, from)
    ensures !hit && nc != 0 ==> from < |nam|
    ensures !hit && nc == 0 ==> forall k :: from <= k <= |nam| ==> !Match(up, pat, p, nam, k)
    decreases |pat| - p, 0
  {
    var pp, np := p, from;
    while true
      invariant p <= pp <= |pat| && from <= np <= |nam| && pp - p == np - from
      invariant forall i :: p <= i < pp ==> !IsWild(pat[i])
      invariant Match(up, pat, p, nam, from) <==> Match(up, pat, pp, nam, np)
      decreases |pat| - pp
    {
      if IsWild(At(pat, pp)) {
        var nm, nx, wp := 0, false, pp;
        while wp == pp || IsWild(At(pat, wp))
          invariant pp <= wp <= |pat|
          invariant MatchFrom(up, pat, pp, nam, np, 0, false) <==> MatchFrom(up, pat, wp, nam, np, nm, nx)
          decreases |pat| - wp
        {
          WildcardJoins(up, pat, wp, nam, np, nm, nx);
          if At(pat, wp) == QUESTION { nm := nm + 1; } else { nx := true; }
          wp := wp + 1;
        }
        hit := PatternMatching(up, pat, wp, nam, np, nm, nx);
        nc := At(nam, np);
        if !hit && nc == 0 { NoLaterStart(up, pat, p, pp, nam, from); }
        return;
      }
      var pc := up(At(pat, pp));
      nc := up(At(nam, np));
      if pc != nc {
        if nc == 0 { NoLaterStart(up, pat, p, pp, nam, from); }
        return false, nc;
      }
      if pc == 0 { return true, nc; }
      pp, np := pp + 1, np + 1;
    }
  }

  lemma NoLaterStart(up: nat -> nat, pat: CString, p: nat, q: nat, nam: CString, from: nat)
    requires p <= q <= |pat| && from <= |nam| && from + (q - p) == |nam|
    requires forall i :: p <= i < q ==> !IsWild(pat[i])
    ensures forall k :: from < k <= |nam| ==> !Match(up, pat, p, nam, k)
  {
    forall k | from < k <= |nam| ensures !Match(up, pat, p, nam, k) {
      if Match(up, pat, p, nam, k) { PlainCharactersConsume(up, pat, p, q, nam, k); }
    }
  }

  /** The matcher as the directory search calls it. */
  method Matches(up: nat -> nat, pat: CString, nam: CString) returns (matched: bool)
    requires UpperCases(up)
    ensures matched <==> Match(up, pat, 0, nam, 0)
  {
    matched := PatternMatching(up, pat, 0, nam, 0, 0, false);
  }

  /** Case of either side does not matter: only the upper-cased characters and
      the places of the wildcards do. */
  lemma {:induction false} CaseDoesNotMatter(up: nat -> nat, pat: CString, pat': CString, p: nat, nam: CString,
      nam': CString, n: nat)
    requires |pat| == |pat'| && |nam| == |nam'| && p <= |pat| && n <= |nam|
    requires forall i :: 0 <= i < |pat| ==> up(pat[i]) == up(pat'[i]) && IsWild(pat[i]) == IsWild(pat'[i])
    requires forall i :: 0 <= i < |pat| && IsWild(pat[i]) ==> pat[i] == pat'[i]
    requires forall i :: 0 <= i < |nam| ==> up(nam[i]) == up(nam'[i])
    ensures Match(up, pat, p, nam, n) <==> Match(up, pat', p, nam', n)
    decreases |pat| - p
  {
    if p < |pat| {
      var q := p + 1;
      forall k {:trigger Match(up, pat, q, nam, k)} {:trigger Match(up, pat', q, nam', k)} | n <= k <= |nam|
        ensures Match(up, pat, q, nam, k) <==> Match(up, pat', q, nam', k)
      {
        CaseDoesNotMatter(up, pat, pat', q, nam, nam', k);
      }
    }
  }
}
