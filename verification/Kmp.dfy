/**
 * Knuth-Morris-Pratt search (cpp/lingshengxueyuan/chap1.1/kmp.c): the brute-force and the linear-time
 * tables, and the search. C strings are sequences of characters other than NUL.
 */
module Kmp {

  const NUL: char := '\0'

  /** pattern[k], which at the end of the string is the terminator. */
  function CharAt(p: string, k: nat): char { if k < |p| then p[k] else NUL }

  /** The first k characters of p are also the last k of p[..i + 1], and not all of it. */
  ghost predicate IsBorder(p: string, i: int, k: int) {
    0 <= k <= i < |p| && p[..k] == p[i + 1 - k..i + 1]
  }

  ghost predicate IsLongestBorder(p: string, i: int, k: int) {
    IsBorder(p, i, k) && forall l :: IsBorder(p, i, l) ==> l <= k
  }

  /** The table that all three functions are to compute. */
  ghost predicate IsTable(p: string, next: seq<int>) {
    |next| >= |p| && forall i :: 0 <= i < |p| ==> IsLongestBorder(p, i, next[i])
  }

  lemma OnlyOneTable(p: string, a: seq<int>, b: seq<int>)
    requires IsTable(p, a) && IsTable(p, b)
    ensures a[..|p|] == b[..|p|]
  {
    forall i | 0 <= i < |p| ensures a[i] == b[i] {
      assert IsLongestBorder(p, i, a[i]) && IsLongestBorder(p, i, b[i]);
    }
  }

  method Compare(a: string, b: string, n: nat) returns (r: int)
    requires n <= |a| && n <= |b|
    ensures r == 0 <==> a[..n] == b[..n]
    ensures r < 0 ==> exists k :: 0 <= k < n && a[..k] == b[..k] && a[k] < b[k]
    ensures r > 0 ==> exists k :: 0 <= k < n && a[..k] == b[..k] && a[k] > b[k]
  {
    var i := 0;
    while i < n
      invariant i <= n && a[..i] == b[..i]
    {
      if a[i] < b[i] { assert a[..n][i] != b[..n][i]; return -1; }
      else if a[i] > b[i] { assert a[..n][i] != b[..n][i]; return 1; }
      i := i + 1;
    }
    r := 0;
  }

  /** getNext: for every prefix, the smallest shift at which it matches itself. */
  method GetNext(p: string, next: array<int>)
    requires next.Length >= 1 && next.Length >= |p|
    modifies next
    ensures IsTable(p, next[..])
  {
    next[0] := 0;
    if |p| > 0 { assert IsLongestBorder(p, 0, 0) by { assert p[..0] == p[1..1]; } }
    var i := 1;
    while i < |p|
      invariant 1 <= i && forall l :: 0 <= l < i && l < |p| ==> IsLongestBorder(p, l, next[l])
    {
      var j := 1;
      while j <= i
        invariant 1 <= j <= i + 1
        invariant forall l :: 0 <= l < i ==> IsLongestBorder(p, l, next[l])
        invariant forall l :: IsBorder(p, i, l) ==> l <= i + 1 - j
      {
        var c := Compare(p, p[j..], i + 1 - j);
        assert p[j..][..i + 1 - j] == p[j..i + 1];
        if c == 0 { break; }
        assert !IsBorder(p, i, i + 1 - j);
        j := j + 1;
      }
      assert IsBorder(p, i, i + 1 - j) by { if j == i + 1 { assert p[..0] == p[i + 1..i + 1]; } }
      next[i] := i + 1 - j;
      i := i + 1;
    }
  }

  // ---------------------------------------------------------------------------------------------
  // Borders of borders
  // ---------------------------------------------------------------------------------------------

  lemma BorderInside(p: string, i: int, k: int, l: int)
    requires IsBorder(p, i, k) && IsBorder(p, i, l) && l < k
    ensures IsBorder(p, k - 1, l)
  {
    assert p[..k][k - l..k] == p[i + 1 - k..i + 1][k - l..k];
  }

  lemma BorderThrough(p: string, i: int, k: int, l: int)
    requires IsBorder(p, i, k) && k > 0 && IsBorder(p, k - 1, l)
    ensures IsBorder(p, i, l)
  {
    assert p[..k][k - l..k] == p[i + 1 - k..i + 1][k - l..k];
  }

  lemma BorderLonger(p: string, i: int, k: int)
    requires 0 < i < |p| && 0 <= k
    ensures IsBorder(p, i, k + 1) <==> IsBorder(p, i - 1, k) && p[k] == p[i]
  {
    if IsBorder(p, i, k + 1) {
      assert p[..k + 1] == p[i - k..i + 1];
      assert p[..k] == p[..k + 1][..k] == p[i - k..i + 1][..k] == p[i - k..i];
      assert p[..k + 1][k] == p[i - k..i + 1][k];
    }
    if IsBorder(p, i - 1, k) && p[k] == p[i] {
      assert p[..k + 1] == p[..k] + [p[k]];
      assert p[i - k..i + 1] == p[i - k..i] + [p[i]];
    }
  }

  lemma EmptyBorder(p: string, i: int)
    requires 0 <= i < |p|
    ensures IsBorder(p, i, 0)
  {
    assert p[..0] == p[i + 1..i + 1];
  }

  /** k is a border of the prefix before q, and no border of the prefix up to q is longer than k + 1. */
  ghost predicate Candidate(p: string, q: int, k: int) {
    0 < q < |p| && IsBorder(p, q - 1, k) && forall l :: IsBorder(p, q, l) ==> l <= k + 1
  }

  lemma FirstCandidate(p: string, q: int, k: int)
    requires 0 < q < |p| && IsLongestBorder(p, q - 1, k)
    ensures Candidate(p, q, k)
  {
    forall l | IsBorder(p, q, l) ensures l <= k + 1 { if l > 0 { BorderLonger(p, q, l - 1); } }
  }

  lemma NextCandidate(p: string, q: int, k: int, n: int)
    requires Candidate(p, q, k) && k > 0 && p[q] != p[k] && IsLongestBorder(p, k - 1, n)
    ensures Candidate(p, q, n) && n < k
  {
    BorderThrough(p, q - 1, k, n);
    forall l | IsBorder(p, q, l) ensures l <= n + 1 {
      if l > 0 {
        BorderLonger(p, q, l - 1);
        if l - 1 < k { BorderInside(p, q - 1, k, l - 1); }
      }
    }
  }

  lemma LastCandidate(p: string, q: int, k: int)
    requires Candidate(p, q, k) && (k == 0 || p[q] == p[k])
    ensures IsLongestBorder(p, q, if p[q] == p[k] then k + 1 else k)
  {
    BorderLonger(p, q, k);
    EmptyBorder(p, q);
  }

  /** getNext2: the table in linear time; the inner loop runs less often than the outer one. */
  method GetNext2(p: string, next: array<int>) returns (ghost steps: nat)
    requires next.Length >= 1 && next.Length >= |p|
    modifies next
    ensures IsTable(p, next[..]) && steps <= |p|
  {
    hide IsLongestBorder, Candidate;
    next[0] := 0;
    steps := 0;
    var j := 0;
    if |p| > 0 { OneChar(p); }
    var i := 1;
    while i < |p|
      invariant 1 <= i && (i == 1 || i <= |p|) && 0 <= j && steps + j <= i - 1 && (i <= |p| ==> next[i - 1] == j)
      invariant forall l :: 0 <= l < i && l < |p| ==> IsLongestBorder(p, l, next[l])
    {
      FirstCandidate(p, i, j);
      CandidateRange(p, i, j);
      while j > 0 && p[i] != p[j]
        invariant 0 <= j < i && Candidate(p, i, j) && steps + j <= i - 1
        invariant forall l :: 0 <= l < i ==> IsLongestBorder(p, l, next[l])
      {
        NextCandidate(p, i, j, next[j - 1]);
        j := next[j - 1];
        CandidateRange(p, i, j);
        steps := steps + 1;
      }
      LastCandidate(p, i, j);
      if p[j] == p[i] {
        j := j + 1;
      }
      next[i] := j;
      i := i + 1;
    }
  }

  lemma OneChar(p: string)
    requires |p| > 0
    ensures IsLongestBorder(p, 0, 0)
  {
    EmptyBorder(p, 0);
  }

  lemma CandidateRange(p: string, q: int, k: int)
    requires Candidate(p, q, k)
    ensures 0 <= k < q < |p|
  {}

  /** make_next: the same table. */
  method MakeNext(p: string, next: array<int>) returns (ghost steps: nat)
    requires next.Length >= 1 && next.Length >= |p|
    modifies next
    ensures IsTable(p, next[..]) && steps <= |p|
  {
    hide IsLongestBorder, Candidate;
    next[0] := 0;
    if |p| > 0 { OneChar(p); }
    steps := 0;
    var q, k := 1, 0;
    while q < |p|
      invariant 1 <= q && (q == 1 || q <= |p|) && 0 <= k && steps + k <= q - 1 && (q <= |p| ==> next[q - 1] == k)
      invariant forall l :: 0 <= l < q && l < |p| ==> IsLongestBorder(p, l, next[l])
    {
      FirstCandidate(p, q, k);
      CandidateRange(p, q, k);
      while k > 0 && p[q] != p[k]
        invariant 0 <= k < q && Candidate(p, q, k) && steps + k <= q - 1
        invariant forall l :: 0 <= l < q ==> IsLongestBorder(p, l, next[l])
      {
        NextCandidate(p, q, k, next[k - 1]);
        k := next[k - 1];
        CandidateRange(p, q, k);
        steps := steps + 1;
      }
      LastCandidate(p, q, k);
      if p[q] == p[k] {
        k := k + 1;
      }
      next[q] := k;
      q := q + 1;
    }
  }

  // ---------------------------------------------------------------------------------------------
  // The search
  // ---------------------------------------------------------------------------------------------

  ghost predicate Occurs(t: string, p: string, s: int) { 0 <= s && s + |p| <= |t| && t[s..s + |p|] == p }

  /** The first l characters of the pattern end before position i of the text. */
  ghost predicate Ends(t: string, i: int, p: string, l: int) {
    0 <= l <= |p| && l <= i <= |t| && t[i - l..i] == p[..l]
  }

  lemma EndsLonger(t: string, i: int, p: string, k: int)
    requires 0 <= i < |t| && 0 <= k
    ensures Ends(t, i + 1, p, k + 1) <==> Ends(t, i, p, k) && k < |p| && p[k] == t[i]
  {
    if Ends(t, i + 1, p, k + 1) {
      assert t[i - k..i] == t[i - k..i + 1][..k] == p[..k + 1][..k] == p[..k];
      assert t[i - k..i + 1][k] == p[..k + 1][k];
    }
    if Ends(t, i, p, k) && k < |p| && p[k] == t[i] {
      assert t[i - k..i + 1] == t[i - k..i] + [t[i]];
      assert p[..k + 1] == p[..k] + [p[k]];
    }
  }

  lemma EndsInside(t: string, i: int, p: string, k: int, l: int)
    requires Ends(t, i, p, k) && Ends(t, i, p, l) && l < k
    ensures IsBorder(p, k - 1, l)
  {
    assert p[k - l..k] == p[..k][k - l..k] == t[i - k..i][k - l..k] == t[i - l..i];
  }

  lemma EndsThrough(t: string, i: int, p: string, k: int, l: int)
    requires Ends(t, i, p, k) && k > 0 && IsBorder(p, k - 1, l)
    ensures Ends(t, i, p, l)
  {
    assert p[k - l..k] == p[..k][k - l..k] == t[i - k..i][k - l..k] == t[i - l..i];
  }

  /** q is the longest prefix of the pattern that ends here, and the pattern did not occur so far. */
  ghost predicate Matched(t: string, i: int, p: string, q: int) {
    && Ends(t, i, p, q) && q < |p| && (forall l :: Ends(t, i, p, l) ==> l <= q)
    && (forall s :: Occurs(t, p, s) ==> s + |p| > i)
  }

  ghost predicate AtMost(t: string, e: int, p: string, k: int) { forall l :: Ends(t, e, p, l) ==> l <= k }

  ghost predicate Trying(t: string, i: int, p: string, q: int) {
    && 0 <= i < |t| && Ends(t, i, p, q) && q < |p| && AtMost(t, i + 1, p, q + 1)
    && (forall s :: Occurs(t, p, s) ==> s + |p| > i)
  }

  lemma StartTrying(t: string, i: int, p: string, q: int)
    requires i < |t| && Matched(t, i, p, q)
    ensures Trying(t, i, p, q)
  {
    var e := i + 1;
    forall l | Ends(t, e, p, l) ensures l <= q + 1 { if l > 0 { EndsLonger(t, i, p, l - 1); } }
  }

  lemma KeepTrying(t: string, i: int, p: string, q: int, n: int)
    requires Trying(t, i, p, q) && q > 0 && p[q] != t[i] && IsLongestBorder(p, q - 1, n)
    ensures Trying(t, i, p, n) && n < q
  {
    EndsThrough(t, i, p, q, n);
    var e := i + 1;
    forall l | Ends(t, e, p, l) ensures l <= n + 1 {
      if l > 0 {
        EndsLonger(t, i, p, l - 1);
        if l - 1 < q { EndsInside(t, i, p, q, l - 1); }
      }
    }
  }

  lemma StopTrying(t: string, i: int, p: string, q: int)
    requires Trying(t, i, p, q) && (q == 0 || p[q] == t[i])
    ensures var r := if p[q] == t[i] then q + 1 else q;
      if r == |p| then Occurs(t, p, i + 1 - |p|) && forall s :: Occurs(t, p, s) ==> s >= i + 1 - |p|
      else Matched(t, i + 1, p, r)
  {
    EndsLonger(t, i, p, q);
    var r := if p[q] == t[i] then q + 1 else q;
    if p[q] != t[i] {
      assert t[i + 1..i + 1] == p[..0];
    }
    assert Ends(t, i + 1, p, r);
    assert p[..|p|] == p;
    forall s | Occurs(t, p, s) && r < |p| ensures s + |p| > i + 1 {
      if s + |p| == i + 1 { assert Ends(t, i + 1, p, |p|); }
    }
  }

  lemma StartMatched(t: string, p: string)
    requires |p| > 0
    ensures Matched(t, 0, p, 0)
  {
    assert t[0..0] == p[..0];
  }

  lemma MatchedRange(t: string, i: int, p: string, q: int)
    requires Matched(t, i, p, q) || Trying(t, i, p, q)
    ensures 0 <= q < |p| && q <= i <= |t| && (Trying(t, i, p, q) ==> i < |t|)
  {}

  lemma NotFound(t: string, p: string, q: int)
    requires Matched(t, |t|, p, q)
    ensures q < |p| && forall s :: !Occurs(t, p, s)
  {}

  /**
   * kmp: for a pattern that is not empty the result is at most n - m exactly if the pattern occurs,
   * and then it is the leftmost place; for the empty pattern the result is 1.
   */
  method Search(t: string, p: string, next: array<int>) returns (r: int, ghost steps: nat)
    requires next.Length >= 1 && next.Length >= |p| && NUL !in t && NUL !in p
    modifies next
    ensures IsTable(p, next[..]) && steps <= |t|
    ensures p == "" ==> r == 1
    ensures p != "" ==> (r <= |t| - |p| <==> exists s :: Occurs(t, p, s))
    ensures p != "" && r <= |t| - |p| ==> Occurs(t, p, r) && forall s :: Occurs(t, p, s) ==> r <= s
  {
    hide IsLongestBorder, Matched, Trying, Occurs;
    var n, m := |t|, |p|;
    ghost var tableSteps := MakeNext(p, next);
    steps := 0;
    var i, q := 0, 0;
    if m > 0 { StartMatched(t, p); }
    while i < n
      invariant 0 <= i <= n && 0 <= q && IsTable(p, next[..])
      invariant if m == 0 then i == 0 && q == 0 && steps == 0 else Matched(t, i, p, q) && steps + q <= i
    {
      if m > 0 { StartTrying(t, i, p, q); MatchedRange(t, i, p, q); }
      while q > 0 && CharAt(p, q) != t[i]
        invariant 0 <= q && IsTable(p, next[..])
        invariant if m == 0 then q == 0 && steps == 0 else q < m && Trying(t, i, p, q) && steps + q <= i
      {
        assert next[..][q - 1] == next[q - 1];
        KeepTrying(t, i, p, q, next[q - 1]);
        q := next[q - 1];
        MatchedRange(t, i, p, q);
        steps := steps + 1;
      }
      if m > 0 { StopTrying(t, i, p, q); }
      if CharAt(p, q) == t[i] {
        q := q + 1;
      }
      if q == m { break; }
      i := i + 1;
    }
    if m > 0 && i == n { NotFound(t, p, q); }
    r := i - q + 1;
  }
}