/**
 `re.sub(pattern, '', text)` for a pattern that never matches the empty
 string, as the left-to-right scan Python's `re` module performs: at each
 index, if the pattern matches there the match is dropped and the scan
 resumes right after it; otherwise the character is kept and the scan moves
 one on.

 The scan is written over a match table: for each index of the text, the
 length of the pattern's match starting there, if there is one. The
 scanner's properties are proved for every valid table; `Substitute` feeds
 it the table of one of the comment patterns.
 */
module ReSub {
  import opened Wrappers
  import opened CommentPatterns

  /** For each index of a text, the length of the match starting there. */
  type MatchTable = seq<Option<nat>>

  /** `t` has an entry per character of `s`, and every match it records is
      non-empty and ends within `s`. */
  predicate ValidTable(s: string, t: MatchTable) {
    |t| == |s| && forall k :: 0 <= k < |t| && t[k].Some? ==> 1 <= t[k].value <= |s| - k
  }

  /** The match table of pattern `p` over `s` (see MatchesIndex). */
  function Matches(p: Pattern, s: string): (t: MatchTable)
    ensures ValidTable(s, t)
    decreases |s|
  {
    if s == [] then [] else [Match(p, s)] + Matches(p, s[1..])
  }

  /** Entry `k` of the table is the pattern's match at the start of `s[k..]`. */
  lemma {:induction false} MatchesIndex(p: Pattern, s: string, k: nat)
    requires k < |s|
    ensures Matches(p, s)[k] == Match(p, s[k..])
    decreases k
  {
    if k > 0 {
      MatchesIndex(p, s[1..], k - 1);
      assert s[1..][k - 1..] == s[k..];
    }
  }

  /** The table of a suffix is the suffix of the table. */
  lemma {:induction false} MatchesSuffix(p: Pattern, s: string, d: nat)
    requires d <= |s|
    ensures Matches(p, s)[d..] == Matches(p, s[d..])
    decreases d
  {
    if d > 0 {
      MatchesSuffix(p, s[1..], d - 1);
      assert s[1..][d - 1..] == s[d..];
    }
  }

  /** The scan of `s` from index `k`, dropping every match `t` records. */
  function Scan(s: string, t: MatchTable, k: nat): (r: string)
    requires ValidTable(s, t) && k <= |s|
    ensures |r| <= |s| - k
    decreases |s| - k
  {
    if k == |s| then []
    else
      match t[k]
      case Some(n) => Scan(s, t, k + n)
      case None => [s[k]] + Scan(s, t, k + 1)
  }

  /** `re.sub(p, '', s)`. */
  function Substitute(p: Pattern, s: string): (r: string)
    ensures |r| <= |s|
  {
    Scan(s, Matches(p, s), 0)
  }

  /** No match starts at an index in `[lo, hi)`. */
  predicate NoMatchIn(t: MatchTable, lo: nat, hi: nat)
    requires lo <= hi <= |t|
  {
    forall j :: lo <= j < hi ==> t[j].None?
  }

  /** Where no match starts, the scan copies the text: everything before
      the leftmost match is kept as it is. */
  lemma {:induction false} ScanCopies(s: string, t: MatchTable, k: nat, m: nat)
    requires ValidTable(s, t) && k <= m <= |s| && NoMatchIn(t, k, m)
    ensures Scan(s, t, k) == s[k..m] + Scan(s, t, m)
    decreases m - k
  {
    if k < m {
      ScanCopies(s, t, k + 1, m);
      calc {
        Scan(s, t, k);
        { assert t[k].None?; }
        [s[k]] + Scan(s, t, k + 1);
        [s[k]] + (s[k + 1..m] + Scan(s, t, m));
        { assert s[k..m] == [s[k]] + s[k + 1..m]; }
        s[k..m] + Scan(s, t, m);
      }
    }
  }

  /** A text in which the pattern matches nowhere from `k` on is copied
      from `k` on. */
  lemma ScanUnchanged(s: string, t: MatchTable, k: nat)
    requires ValidTable(s, t) && k <= |s| && NoMatchIn(t, k, |s|)
    ensures Scan(s, t, k) == s[k..]
  {
    ScanCopies(s, t, k, |s|);
  }

  /** A match anywhere from `k` on makes the scan shorter than the text. */
  lemma {:induction false} ScanShrinks(s: string, t: MatchTable, k: nat, i: nat)
    requires ValidTable(s, t) && k <= i < |s| && t[i].Some?
    ensures |Scan(s, t, k)| < |s| - k
    decreases i - k
  {
    if t[k].None? {
      ScanShrinks(s, t, k + 1, i);
    }
  }

  /** The scan leaves the text as it is exactly when the pattern matches
      nowhere in it. */
  lemma ScanFixedIff(s: string, t: MatchTable)
    requires ValidTable(s, t)
    ensures Scan(s, t, 0) == s <==> NoMatchIn(t, 0, |s|)
  {
    if NoMatchIn(t, 0, |s|) {
      ScanUnchanged(s, t, 0);
    } else {
      var i :| 0 <= i < |s| && t[i].Some?;
      ScanShrinks(s, t, 0, i);
    }
  }

  /** A suffix of a valid table is valid for the same suffix of the text. */
  lemma ValidSuffix(s: string, t: MatchTable, d: nat)
    requires ValidTable(s, t) && d <= |s|
    ensures ValidTable(s[d..], t[d..])
  {
    forall k | 0 <= k < |t[d..]| && t[d..][k].Some?
      ensures 1 <= t[d..][k].value <= |s[d..]| - k
    {
      assert t[d..][k] == t[d + k];
    }
  }

  /** Scanning from index `d + j` of `s` is scanning from `j` of the suffix
      `s[d..]` with the suffix of the table. */
  lemma {:induction false} ScanShift(s: string, t: MatchTable, d: nat, j: nat)
    requires ValidTable(s, t) && d + j <= |s|
    ensures ValidTable(s[d..], t[d..])
    ensures Scan(s, t, d + j) == Scan(s[d..], t[d..], j)
    decreases |s| - d - j
  {
    ValidSuffix(s, t, d);
    var s', t' := s[d..], t[d..];
    if d + j < |s| {
      assert t'[j] == t[d + j];
      match t[d + j]
      case Some(n) =>
        ScanShift(s, t, d, j + n);
        assert Scan(s', t', j) == Scan(s', t', j + n);
      case None =>
        ScanShift(s, t, d, j + 1);
        assert s'[j] == s[d + j];
        assert Scan(s', t', j) == [s'[j]] + Scan(s', t', j + 1);
    }
  }

  /** Once the scan has reached index `d` it carries on exactly as `re.sub`
      on the rest of the text does. */
  lemma SubstituteFrom(p: Pattern, s: string, d: nat)
    requires d <= |s|
    ensures Scan(s, Matches(p, s), d) == Substitute(p, s[d..])
  {
    ScanShift(s, Matches(p, s), d, 0);
    MatchesSuffix(p, s, d);
  }

  /** `a` is `b` with some characters deleted. */
  ghost predicate IsSubsequence(a: string, b: string)
    decreases |b|
  {
    || a == []
    || (b != [] && ((a[0] == b[0] && IsSubsequence(a[1..], b[1..])) || IsSubsequence(a, b[1..])))
  }

  lemma {:induction false} SubsequenceDrop(a: string, b: string, k: nat)
    requires k <= |b| && IsSubsequence(a, b[k..])
    ensures IsSubsequence(a, b)
    decreases k
  {
    if k > 0 {
      assert b[k - 1..][1..] == b[k..];
      SubsequenceDrop(a, b, k - 1);
    }
  }

  lemma {:induction false} SubsequenceTransitive(a: string, b: string, c: string)
    requires IsSubsequence(a, b) && IsSubsequence(b, c)
    ensures IsSubsequence(a, c)
    decreases |c|
  {
    if a != [] {
      if IsSubsequence(b, c[1..]) {
        SubsequenceTransitive(a, b, c[1..]);
      } else if a[0] == b[0] && IsSubsequence(a[1..], b[1..]) {
        SubsequenceTransitive(a[1..], b[1..], c[1..]);
      } else {
        SubsequenceTransitive(a, b[1..], c[1..]);
      }
    }
  }

  /** Every character the scan keeps comes from the text, in order. */
  lemma {:induction false} ScanDeletes(s: string, t: MatchTable, k: nat)
    requires ValidTable(s, t) && k <= |s|
    ensures IsSubsequence(Scan(s, t, k), s[k..])
    decreases |s| - k
  {
    if k < |s| {
      match t[k]
      case Some(n) =>
        ScanDeletes(s, t, k + n);
        assert s[k..][n..] == s[k + n..];
        SubsequenceDrop(Scan(s, t, k + n), s[k..], n);
      case None =>
        ScanDeletes(s, t, k + 1);
        assert s[k..][1..] == s[k + 1..];
    }
  }

  /** `re.sub` with an empty replacement only deletes characters. */
  lemma SubstituteDeletes(p: Pattern, s: string)
    ensures IsSubsequence(Substitute(p, s), s)
  {
    ScanDeletes(s, Matches(p, s), 0);
  }
}
