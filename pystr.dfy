/**
 Python `str` operations. `Strip` (with whitespace classification) and
 `Split` model the splitter's own calls; `Find` and `FindPair` carry the
 regex matching of the comment patterns; `Join`, `Count` and `Contains`
 (`w in s`) are used only to state properties of the splitter.
 */
module PyStr {
  import opened Wrappers

  /** The code points CPython's `str.isspace` accepts, which are the ones a
      bare `str.strip()` removes: TAB, LF, VT, FF, CR; the separators FS,
      GS, RS, US and SPACE; NEXT LINE; NO-BREAK SPACE; OGHAM SPACE MARK; EN
      QUAD to HAIR SPACE; LINE and PARAGRAPH SEPARATOR; NARROW NO-BREAK
      SPACE; MEDIUM MATHEMATICAL SPACE; IDEOGRAPHIC SPACE. */
  predicate IsSpace(c: char) {
    || '\t' <= c <= '\r'
    || '\U{1C}' <= c <= ' '
    || c == '\U{85}'
    || c == '\U{A0}'
    || c == '\U{1680}'
    || '\U{2000}' <= c <= '\U{200A}'
    || c == '\U{2028}'
    || c == '\U{2029}'
    || c == '\U{202F}'
    || c == '\U{205F}'
    || c == '\U{3000}'
  }

  predicate AllSpace(s: string) {
    forall i :: 0 <= i < |s| ==> IsSpace(s[i])
  }

  /** Neither end of `s` is whitespace (the empty string qualifies). */
  predicate IsTrimmed(s: string) {
    s == [] || (!IsSpace(s[0]) && !IsSpace(s[|s| - 1]))
  }

  /** `w in s`: `w` occurs as a contiguous piece of `s`. */
  ghost predicate Contains(s: string, w: string) {
    exists i :: OccursAt(s, w, i)
  }

  /** `w` occurs in `s` starting at index `i`. */
  predicate OccursAt(s: string, w: string, i: int) {
    0 <= i && i + |w| <= |s| && s[i..i + |w|] == w
  }

  /** Every character of `s` from index `lo` up to, not including, `hi` is
      whitespace. */
  predicate SpaceBetween(s: string, lo: nat, hi: nat)
    requires lo <= hi <= |s|
  {
    forall k :: lo <= k < hi ==> IsSpace(s[k])
  }

  /** Where `s.lstrip()` starts: the first index at or after `i` that does
      not hold whitespace, or `|s|` if there is none. */
  function StripStart(s: string, i: nat): (k: nat)
    requires i <= |s|
    ensures i <= k <= |s| && SpaceBetween(s, i, k)
    ensures k == |s| || !IsSpace(s[k])
    decreases |s| - i
  {
    if i < |s| && IsSpace(s[i]) then StripStart(s, i + 1) else i
  }

  /** Where `s.rstrip()` ends, looking no further left than `lo`: the
      smallest index `k` at or below `j` such that only whitespace lies
      between `k` and `j`. */
  function StripEnd(s: string, lo: nat, j: nat): (k: nat)
    requires lo <= j <= |s|
    ensures lo <= k <= j && SpaceBetween(s, k, j)
    ensures k == lo || !IsSpace(s[k - 1])
    decreases j
  {
    if lo < j && IsSpace(s[j - 1]) then StripEnd(s, lo, j - 1) else j
  }

  /** `s.strip()`: the slice of `s` between its leading and its trailing
      whitespace. */
  function Strip(s: string): (r: string)
    ensures IsTrimmed(r)
    ensures var i := StripStart(s, 0); var j := StripEnd(s, i, |s|);
      && r == s[i..j] && SpaceBetween(s, 0, i) && SpaceBetween(s, j, |s|)
  {
    var i := StripStart(s, 0);
    var j := StripEnd(s, i, |s|);
    assert i < j ==> s[i..j][0] == s[i] && s[i..j][j - i - 1] == s[j - 1];
    s[i..j]
  }

  /** The strip is empty exactly when the text is all whitespace. */
  lemma StripEmpty(s: string)
    ensures Strip(s) == [] <==> AllSpace(s)
  {
    var i := StripStart(s, 0);
    var j := StripEnd(s, i, |s|);
    if i == j {
      forall k | 0 <= k < |s| ensures IsSpace(s[k]) {
        assert k < i || j <= k;
      }
    }
  }

  /** The strip of `s` is the only trimmed slice of `s` that leaves nothing
      but whitespace on either side. */
  lemma StripUnique(s: string, i: nat, j: nat)
    requires i <= j <= |s|
    requires AllSpace(s[..i]) && AllSpace(s[j..]) && IsTrimmed(s[i..j])
    ensures Strip(s) == s[i..j]
  {
    var a := StripStart(s, 0);
    var b := StripEnd(s, a, |s|);
    assert SpaceBetween(s, 0, i) by {
      forall k | 0 <= k < i ensures IsSpace(s[k]) { assert s[..i][k] == s[k]; }
    }
    assert SpaceBetween(s, j, |s|) by {
      forall k | j <= k < |s| ensures IsSpace(s[k]) { assert s[j..][k - j] == s[k]; }
    }
    if i == j {
      assert AllSpace(s) by {
        forall k | 0 <= k < |s| ensures IsSpace(s[k]) { assert k < i || j <= k; }
      }
      StripEmpty(s);
    } else {
      assert !IsSpace(s[i]) && !IsSpace(s[j - 1]) by {
        assert s[i] == s[i..j][0] && s[j - 1] == s[i..j][j - i - 1];
      }
      assert a == i && b == j;
    }
  }

  /** Stripping twice is stripping once. */
  lemma StripIdempotent(s: string)
    ensures Strip(Strip(s)) == Strip(s)
  {
    var r := Strip(s);
    assert r[..0] == [] && r[|r|..] == [] && r[0..|r|] == r;
    StripUnique(r, 0, |r|);
  }

  /** `s.count(c)` for a single character `c`. */
  function Count(s: string, c: char): nat
  {
    if s == [] then 0 else (if s[0] == c then 1 else 0) + Count(s[1..], c)
  }

  /** `s.split(sep)`: the pieces between the separators, so `k` separators
      give `k + 1` pieces and the empty string gives one empty piece. */
  function Split(s: string, sep: char): (pieces: seq<string>)
    ensures |pieces| == Count(s, sep) + 1
    ensures forall k :: 0 <= k < |pieces| ==> sep !in pieces[k]
  {
    if s == [] then [[]]
    else
      var rest := Split(s[1..], sep);
      if s[0] == sep then [[]] + rest
      else [[s[0]] + rest[0]] + rest[1..]
  }

  /** `sep.join(pieces)`. */
  function Join(pieces: seq<string>, sep: char): string
  {
    if |pieces| == 0 then []
    else if |pieces| == 1 then pieces[0]
    else pieces[0] + [sep] + Join(pieces[1..], sep)
  }

  /** Joining the pieces of a split restores the text. */
  lemma {:induction false} JoinSplit(s: string, sep: char)
    ensures Join(Split(s, sep), sep) == s
  {
    if s != [] {
      var rest := Split(s[1..], sep);
      JoinSplit(s[1..], sep);
      if s[0] == sep {
        assert Split(s, sep) == [[]] + rest;
        assert ([[]] + rest)[1..] == rest;
      } else {
        assert Split(s, sep) == [[s[0]] + rest[0]] + rest[1..];
        if |rest| > 1 {
          assert ([[s[0]] + rest[0]] + rest[1..])[1..] == rest[1..];
        }
      }
    }
  }

  /** Splitting `a + b` where `a` holds no separator glues `a` onto the first
      piece of `b`. */
  lemma {:induction false} SplitPrefix(a: string, b: string, sep: char)
    requires sep !in a
    ensures Split(a + b, sep) == [a + Split(b, sep)[0]] + Split(b, sep)[1..]
  {
    if a != [] {
      var x, p := a + b, Split(b, sep);
      var rest := Split(a[1..] + b, sep);
      assert x[0] == a[0] && x[1..] == a[1..] + b;
      calc {
        Split(x, sep);
        [[a[0]] + rest[0]] + rest[1..];
        { SplitPrefix(a[1..], b, sep);
          assert rest[0] == a[1..] + p[0] && rest[1..] == p[1..]; }
        [[a[0]] + (a[1..] + p[0])] + p[1..];
        { assert [a[0]] + (a[1..] + p[0]) == a + p[0]; }
        [a + p[0]] + p[1..];
      }
    } else {
      var pieces := Split(b, sep);
      assert a + b == b && a + pieces[0] == pieces[0];
      assert pieces == [pieces[0]] + pieces[1..];
    }
  }

  /** Splitting a join of separator-free pieces gives the pieces back. */
  lemma {:induction false} SplitJoin(pieces: seq<string>, sep: char)
    requires |pieces| > 0
    requires forall k :: 0 <= k < |pieces| ==> sep !in pieces[k]
    ensures Split(Join(pieces, sep), sep) == pieces
  {
    if |pieces| == 1 {
      SplitPrefix(pieces[0], [], sep);
      assert pieces[0] + [] == pieces[0];
    } else {
      SplitJoin(pieces[1..], sep);
      var tail := [sep] + Join(pieces[1..], sep);
      SplitPrefix(pieces[0], tail, sep);
      assert pieces[0] + [sep] + Join(pieces[1..], sep) == pieces[0] + tail;
      assert tail[1..] == Join(pieces[1..], sep);
      assert Split(tail, sep) == [[]] + pieces[1..];
      assert ([[]] + pieces[1..])[1..] == pieces[1..];
      assert pieces[0] + [] == pieces[0];
      assert pieces == [pieces[0]] + pieces[1..];
    }
  }

  /** Every piece of a split of whitespace is whitespace. */
  lemma {:induction false} SplitAllSpace(s: string, sep: char)
    requires AllSpace(s)
    ensures forall k :: 0 <= k < |Split(s, sep)| ==> AllSpace(Split(s, sep)[k])
  {
    if s != [] {
      SplitAllSpace(s[1..], sep);
    }
  }

  /** A word that holds no separator occurs in a join only if it occurs in
      one of the pieces. */
  lemma {:induction false} ContainsJoin(pieces: seq<string>, sep: char, w: string)
    requires w != [] && sep !in w
    requires forall k :: 0 <= k < |pieces| ==> !Contains(pieces[k], w)
    ensures !Contains(Join(pieces, sep), w)
  {
    if |pieces| > 1 {
      ContainsJoin(pieces[1..], sep, w);
      var a, b := pieces[0], Join(pieces[1..], sep);
      var s := a + [sep] + b;
      forall i | OccursAt(s, w, i) ensures false {
        OccursAcross(a, sep, b, w, i);
      }
    }
  }

  /** An occurrence of `w` in `a + [sep] + b` lies within `a`, within `b`,
      or covers the separator. */
  lemma OccursAcross(a: string, sep: char, b: string, w: string, i: int)
    requires OccursAt(a + [sep] + b, w, i)
    ensures OccursAt(a, w, i) || OccursAt(b, w, i - |a| - 1) || sep in w
  {
    var s := a + [sep] + b;
    if i + |w| <= |a| {
      assert s[i..i + |w|] == a[i..i + |w|];
    } else if i > |a| {
      assert s[i..i + |w|] == b[i - |a| - 1..i - |a| - 1 + |w|];
    } else {
      assert w[|a| - i] == s[|a|];
    }
  }

  /** An occurrence of an occurrence is an occurrence. */
  lemma OccursTrans(s: string, p: string, q: string, i: int, a: int)
    requires OccursAt(s, p, i) && OccursAt(p, q, a)
    ensures OccursAt(s, q, i + a)
  {
    forall k | 0 <= k < |q|
      ensures q[k] == s[i + a + k]
    {
      assert q[k] == p[a + k] && p[a + k] == s[i + a + k];
    }
  }

  /** The first piece of a split is a prefix of the text. */
  lemma {:induction false} SplitHeadPrefix(s: string, sep: char)
    ensures OccursAt(s, Split(s, sep)[0], 0)
    decreases |s|
  {
    if s != [] && s[0] != sep {
      SplitHeadPrefix(s[1..], sep);
      var h := Split(s[1..], sep)[0];
      assert [s[0]] + h == s[..|h| + 1];
    }
  }

  /** Every piece of a split occurs in the text. */
  lemma {:induction false} SplitPieceOccurs(s: string, sep: char, k: nat)
    requires k < |Split(s, sep)|
    ensures exists i :: OccursAt(s, Split(s, sep)[k], i)
    decreases |s|
  {
    if k == 0 {
      SplitHeadPrefix(s, sep);
    } else {
      var rest := Split(s[1..], sep);
      var i :| OccursAt(s[1..], rest[k - (if s[0] == sep then 1 else 0)], i) by {
        SplitPieceOccurs(s[1..], sep, k - (if s[0] == sep then 1 else 0));
      }
      OccursTrans(s, s[1..], Split(s, sep)[k], 1, i);
    }
  }

  /** The strip of a text occurs in it. */
  lemma StripOccurs(s: string)
    ensures OccursAt(s, Strip(s), StripStart(s, 0))
  {
  }

  /** `a` at index `k` and `b` right after it. */
  predicate PairAt(s: string, k: int, a: char, b: char) {
    0 <= k && k + 1 < |s| && s[k] == a && s[k + 1] == b
  }

  /** `s.find(c, from)`: the first index at or after `from` holding `c`
      (see FindIsFirst). */
  function Find(s: string, c: char, from: nat): (r: Option<nat>)
    requires from <= |s|
    ensures r.Some? ==> from <= r.value < |s| && s[r.value] == c
    decreases |s| - from
  {
    if from == |s| then None
    else if s[from] == c then Some(from)
    else Find(s, c, from + 1)
  }

  /** Find returns the first `c` at or after `from`, and nothing only when
      there is none. */
  lemma {:induction false} FindIsFirst(s: string, c: char, from: nat)
    requires from <= |s|
    ensures forall k :: from <= k < |s| && (Find(s, c, from).None? || k < Find(s, c, from).value) ==> s[k] != c
    decreases |s| - from
  {
    if from < |s| && s[from] != c {
      FindIsFirst(s, c, from + 1);
    }
  }

  /** `s.find(a + b, from)` for a two-character needle (see FindPairIsFirst). */
  function FindPair(s: string, a: char, b: char, from: nat): (r: Option<nat>)
    ensures r.Some? ==> from <= r.value && PairAt(s, r.value, a, b)
    decreases |s| - from
  {
    if from + 1 >= |s| then None
    else if s[from] == a && s[from + 1] == b then Some(from)
    else FindPair(s, a, b, from + 1)
  }

  /** FindPair returns the first pair at or after `from`, and nothing only
      when there is none. */
  lemma {:induction false} FindPairIsFirst(s: string, a: char, b: char, from: nat)
    ensures forall k :: from <= k && (FindPair(s, a, b, from).None? || k < FindPair(s, a, b, from).value) ==> !PairAt(s, k, a, b)
    decreases |s| - from
  {
    if from + 1 < |s| && !(s[from] == a && s[from + 1] == b) {
      FindPairIsFirst(s, a, b, from + 1);
    }
  }
}
