/**
 The two comment-removal passes of the segmenter: `re.sub` with the
 line-comment pattern, then with the block-comment pattern. The line pass is
 characterised line by line (StripLineComments); the block pass by what it
 does at the leftmost comment opener.
 */
module CommentPasses {
  import opened Wrappers
  import opened PyStr
  import opened CommentPatterns
  import opened ReSub

  // Where the line pattern matches inside a text.

  /** Two slashes at `j`, and `n` the first newline after them: the line
      pattern matches at `j` and its match runs through that newline. */
  lemma LineAt(s: string, j: nat, n: nat)
    requires PairAt(s, j, '/', '/') && j + 2 <= n < |s| && s[n] == '\n'
    requires forall k :: j + 2 <= k < n ==> s[k] != '\n'
    ensures Matches(LineComment, s)[j] == Some(n + 1 - j)
  {
    MatchesIndex(LineComment, s, j);
    var u := s[j..];
    LineMatchSpec(u);
    assert u[n - j] == '\n';
    var v := LineMatch(u).value;
    assert s[j + v - 1] == u[v - 1];
    assert forall k :: 2 <= k < n - j ==> u[k] == s[j + k];
  }

  /** The line pattern matches at index `j` of `s` exactly when two slashes
      start there and a newline follows them. */
  lemma LineTableAt(s: string, j: nat)
    requires j < |s|
    ensures Matches(LineComment, s)[j].Some? <==> PairAt(s, j, '/', '/') && exists k :: j + 2 <= k < |s| && s[k] == '\n'
  {
    MatchesIndex(LineComment, s, j);
    var u := s[j..];
    LineMatchSpec(u);
    if LineMatch(u).Some? {
      var v := LineMatch(u).value;
      assert s[j + v - 1] == u[v - 1];
    }
    if PairAt(s, j, '/', '/') && exists k :: j + 2 <= k < |s| && s[k] == '\n' {
      var k :| j + 2 <= k < |s| && s[k] == '\n';
      assert u[k - j] == '\n';
    }
  }

  /** Without two slashes at `j`, or without a newline after them, the line
      pattern does not match at `j`. */
  lemma LineNotAt(s: string, j: nat)
    requires j < |s|
    requires !PairAt(s, j, '/', '/') || forall k :: j + 2 <= k < |s| ==> s[k] != '\n'
    ensures Matches(LineComment, s)[j].None?
  {
    LineTableAt(s, j);
  }

  // Where the block pattern matches inside a text.

  /** An opener at `j`, and `k` the first star-slash pair at `j + 3` or
      later: the block pattern matches at `j` and its match runs through
      that pair. */
  lemma BlockAt(s: string, j: nat, k: nat)
    requires BlockOpenerAt(s, j) && j + 3 <= k && PairAt(s, k, '*', '/')
    requires forall m :: j + 3 <= m < k ==> !PairAt(s, m, '*', '/')
    ensures Matches(BlockComment, s)[j] == Some(k + 2 - j)
  {
    MatchesIndex(BlockComment, s, j);
    var u := s[j..];
    BlockMatchSpec(u);
    assert PairAt(u, k - j, '*', '/');
    var v := BlockMatch(u).value;
    assert PairAt(s, j + v - 2, '*', '/');
    assert forall m :: 3 <= m < k - j ==> (PairAt(u, m, '*', '/') <==> PairAt(s, j + m, '*', '/'));
  }

  /** Without an opener at `j`, or without a star-slash pair at `j + 3` or
      later, the block pattern does not match at `j`. */
  lemma BlockNotAt(s: string, j: nat)
    requires j < |s|
    requires !BlockOpenerAt(s, j) || forall m :: j + 3 <= m ==> !PairAt(s, m, '*', '/')
    ensures Matches(BlockComment, s)[j].None?
  {
    BlockTableAt(s, j);
  }

  /** A match of the block pattern at `j` starts with an opener and ends
      with a star-slash pair at `j + 3` or later. */
  lemma BlockTableAt(s: string, j: nat)
    requires j < |s|
    ensures Matches(BlockComment, s)[j].Some? ==>
      var e: int := Matches(BlockComment, s)[j].value;
      BlockOpenerAt(s, j) && 5 <= e && PairAt(s, j + e - 2, '*', '/')
  {
    MatchesIndex(BlockComment, s, j);
    BlockMatchInside(s, j);
  }

  lemma BlockMatchInside(s: string, j: nat)
    requires j < |s|
    ensures BlockMatch(s[j..]).Some? ==>
      var e: int := BlockMatch(s[j..]).value;
      BlockOpenerAt(s, j) && 5 <= e && PairAt(s, j + e - 2, '*', '/')
  {
    var u := s[j..];
    match BlockMatch(u)
    case Some(e) =>
      assert forall i :: 0 <= i < |u| ==> u[i] == s[j + i];
    case None =>
  }

  // The line pass, line by line.

  /** What the line pass leaves of one line, given without its newline: the
      text before its first two slashes, the newline going with the comment;
      or the whole line and its newline when it holds no two slashes. */
  function KeepLine(line: string): string {
    match FindPair(line, '/', '/', 0)
    case Some(i) => line[..i]
    case None => line + ['\n']
  }

  /** The line pass as a reference definition: every newline-terminated line
      becomes KeepLine of it, and the text after the last newline stays as
      it is, two slashes and all. */
  function StripLineComments(s: string): string
    decreases |s|
  {
    match Find(s, '\n', 0)
    case None => s
    case Some(n) => KeepLine(s[..n]) + StripLineComments(s[n + 1..])
  }

  /** In a line followed by its newline, the line pattern matches before
      index `i` only where the line holds two slashes. */
  lemma LineNoMatchBefore(line: string, rest: string, i: nat)
    requires i <= |line| + 1
    requires forall j :: 0 <= j < i && j + 1 < |line| ==> !PairAt(line, j, '/', '/')
    ensures NoMatchIn(Matches(LineComment, line + ['\n'] + rest), 0, i)
  {
    var s := line + ['\n'] + rest;
    assert s[|line|] == '\n';
    forall j | 0 <= j < i
      ensures Matches(LineComment, s)[j].None?
    {
      if j + 1 < |line| {
        assert !PairAt(line, j, '/', '/');
        assert s[j] == line[j] && s[j + 1] == line[j + 1];
      } else if j < |line| {
        assert s[j + 1] == '\n';
      }
      LineNotAt(s, j);
    }
  }

  /** The line pass on one line and what follows it: the line is cut at its
      first two slashes together with its newline, or kept whole with its
      newline, and the pass carries on after that newline. */
  lemma LineStep(line: string, rest: string)
    requires '\n' !in line
    ensures Substitute(LineComment, line + ['\n'] + rest) == KeepLine(line) + Substitute(LineComment, rest)
  {
    FindPairIsFirst(line, '/', '/', 0);
    match FindPair(line, '/', '/', 0)
    case Some(i) =>
      LineStepCut(line, rest, i);
    case None =>
      LineStepWhole(line, rest);
  }

  /** LineStep for a line whose first two slashes are at `i`. */
  lemma LineStepCut(line: string, rest: string, i: nat)
    requires '\n' !in line && PairAt(line, i, '/', '/')
    requires forall j :: 0 <= j < i ==> !PairAt(line, j, '/', '/')
    ensures Substitute(LineComment, line + ['\n'] + rest) == line[..i] + Substitute(LineComment, rest)
  {
    var s := line + ['\n'] + rest;
    var t := Matches(LineComment, s);
    var n := |line|;
    calc {
      Scan(s, t, 0);
      { LineNoMatchBefore(line, rest, i);
        ScanCopies(s, t, 0, i); }
      s[0..i] + Scan(s, t, i);
      { assert s[0..i] == line[..i]; }
      line[..i] + Scan(s, t, i);
      { LineCut(line, rest, i); }
      line[..i] + Scan(s, t, n + 1);
      { assert s[n + 1..] == rest;
        SubstituteFrom(LineComment, s, n + 1); }
      line[..i] + Substitute(LineComment, rest);
    }
  }

  /** LineStep for a line without two slashes. */
  lemma LineStepWhole(line: string, rest: string)
    requires '\n' !in line
    requires forall j :: !PairAt(line, j, '/', '/')
    ensures Substitute(LineComment, line + ['\n'] + rest) == line + ['\n'] + Substitute(LineComment, rest)
  {
    var s := line + ['\n'] + rest;
    var t := Matches(LineComment, s);
    var n := |line|;
    calc {
      Scan(s, t, 0);
      { LineNoMatchBefore(line, rest, n + 1);
        ScanCopies(s, t, 0, n + 1); }
      s[0..n + 1] + Scan(s, t, n + 1);
      { assert s[0..n + 1] == line + ['\n']; }
      line + ['\n'] + Scan(s, t, n + 1);
      { assert s[n + 1..] == rest;
        SubstituteFrom(LineComment, s, n + 1); }
      line + ['\n'] + Substitute(LineComment, rest);
    }
  }

  /** The first two slashes of a line start a match that runs through the
      line's newline. */
  lemma LineCut(line: string, rest: string, i: nat)
    requires '\n' !in line && PairAt(line, i, '/', '/')
    ensures var s := line + ['\n'] + rest;
      Matches(LineComment, s)[i] == Some(|line| + 1 - i)
  {
    var s := line + ['\n'] + rest;
    var n := |line|;
    assert s[n] == '\n' && s[i] == line[i] && s[i + 1] == line[i + 1];
    assert forall k :: i + 2 <= k < n ==> s[k] == line[k];
    LineAt(s, i, n);
  }

  /** Text without a newline has no line comment: two slashes that no
      newline follows survive the line pass. */
  lemma NoNewlineUnchanged(s: string)
    requires '\n' !in s
    ensures Substitute(LineComment, s) == s
  {
    var t := Matches(LineComment, s);
    forall j | 0 <= j < |s|
      ensures t[j].None?
    {
      LineNotAt(s, j);
    }
    ScanUnchanged(s, t, 0);
  }

  /** The line pass is the line-by-line reference. */
  lemma {:induction false} LineCommentsByLine(s: string)
    ensures Substitute(LineComment, s) == StripLineComments(s)
    decreases |s|
  {
    FindIsFirst(s, '\n', 0);
    match Find(s, '\n', 0)
    case None =>
      NoNewlineUnchanged(s);
    case Some(n) =>
      var line, rest := s[..n], s[n + 1..];
      assert s == line + ['\n'] + rest;
      LineStep(line, rest);
      LineCommentsByLine(rest);
  }

  /** No two slashes in `r` are followed, anywhere later, by a newline: the
      line pattern matches nowhere in `r`. */
  predicate LineCommentFree(r: string) {
    forall j, k :: 0 <= j < k < |r| && j + 2 <= k && PairAt(r, j, '/', '/') ==> r[k] != '\n'
  }

  /** Text the line pass leaves as it is is exactly the text with no line
      comment in it. */
  lemma LineCommentFreeIff(r: string)
    ensures Substitute(LineComment, r) == r <==> LineCommentFree(r)
  {
    var t := Matches(LineComment, r);
    ScanFixedIff(r, t);
    if LineCommentFree(r) {
      forall j | 0 <= j < |r|
        ensures t[j].None?
      {
        LineTableAt(r, j);
      }
    } else {
      var j, k :| 0 <= j < k < |r| && j + 2 <= k && PairAt(r, j, '/', '/') && r[k] == '\n';
      LineTableAt(r, j);
    }
  }

  /** Text with no two slashes, not ending in a slash, followed by
      comment-free text is comment-free. */
  lemma FreeConcat(a: string, b: string)
    requires forall j :: !PairAt(a, j, '/', '/')
    requires a == [] || a[|a| - 1] != '/'
    requires LineCommentFree(b)
    ensures LineCommentFree(a + b)
  {
    var r := a + b;
    forall j | 0 <= j < |a|
      ensures !PairAt(r, j, '/', '/')
    {
      assert r[j] == a[j];
      if j + 1 < |a| {
        assert !PairAt(a, j, '/', '/');
        assert r[j + 1] == a[j + 1];
      }
    }
    forall j, k | 0 <= j < k < |r| && j + 2 <= k && PairAt(r, j, '/', '/')
      ensures r[k] != '\n'
    {
      assert PairAt(b, j - |a|, '/', '/');
      assert r[k] == b[k - |a|];
    }
  }

  /** What the line pass keeps of a line holds no two slashes and does not
      end in a slash. */
  lemma KeepLineFree(line: string)
    ensures forall j :: !PairAt(KeepLine(line), j, '/', '/')
    ensures KeepLine(line) == [] || KeepLine(line)[|KeepLine(line)| - 1] != '/'
  {
    FindPairIsFirst(line, '/', '/', 0);
    var a := KeepLine(line);
    match FindPair(line, '/', '/', 0)
    case Some(i) =>
      forall j | 0 <= j && j + 1 < i
        ensures !PairAt(a, j, '/', '/')
      {
        assert !PairAt(line, j, '/', '/');
        assert a[j] == line[j] && a[j + 1] == line[j + 1];
      }
      if i > 0 {
        assert !PairAt(line, i - 1, '/', '/');
        assert a[i - 1] == line[i - 1];
      }
    case None =>
      forall j | 0 <= j && j + 1 < |a|
        ensures !PairAt(a, j, '/', '/')
      {
        if j + 1 < |line| {
          assert !PairAt(line, j, '/', '/');
          assert a[j] == line[j] && a[j + 1] == line[j + 1];
        } else {
          assert a[j + 1] == '\n';
        }
      }
  }

  /** The reference leaves no line comment behind. */
  lemma {:induction false} StripLineCommentsFree(s: string)
    ensures LineCommentFree(StripLineComments(s))
    decreases |s|
  {
    match Find(s, '\n', 0)
    case None =>
      FindIsFirst(s, '\n', 0);
    case Some(n) =>
      StripLineCommentsFree(s[n + 1..]);
      KeepLineFree(s[..n]);
      FreeConcat(KeepLine(s[..n]), StripLineComments(s[n + 1..]));
  }

  /** After the line pass no line comment is left, so a second pass changes
      nothing. */
  lemma LineCommentsGone(s: string)
    ensures LineCommentFree(Substitute(LineComment, s))
    ensures Substitute(LineComment, Substitute(LineComment, s)) == Substitute(LineComment, s)
  {
    LineCommentsByLine(s);
    StripLineCommentsFree(s);
    LineCommentFreeIff(Substitute(LineComment, s));
  }

  // The block pass.

  /** With its leftmost opener at `i` and the first star-slash pair at
      `i + 3` or later at `k`, the block pass keeps the text before `i`,
      drops the comment through `k + 1`, and carries on after it. */
  lemma BlockCommentRemoved(s: string, i: nat, k: nat)
    requires forall j :: 0 <= j < i ==> !BlockOpenerAt(s, j)
    requires BlockOpenerAt(s, i) && i + 3 <= k && PairAt(s, k, '*', '/')
    requires forall m :: i + 3 <= m < k ==> !PairAt(s, m, '*', '/')
    ensures Substitute(BlockComment, s) == s[..i] + Substitute(BlockComment, s[k + 2..])
  {
    var t := Matches(BlockComment, s);
    forall j | 0 <= j < i
      ensures t[j].None?
    {
      BlockNotAt(s, j);
    }
    ScanCopies(s, t, 0, i);
    BlockAt(s, i, k);
    SubstituteFrom(BlockComment, s, k + 2);
    assert s[0..i] == s[..i];
  }

  /** With no opener before `i` and no star-slash pair at `i + 3` or later,
      the block pass changes nothing: an opener at `i` that is never closed
      stays in the text. */
  lemma BlockUnterminatedKept(s: string, i: nat)
    requires forall j :: 0 <= j < i ==> !BlockOpenerAt(s, j)
    requires forall m :: i + 3 <= m ==> !PairAt(s, m, '*', '/')
    ensures Substitute(BlockComment, s) == s
  {
    var t := Matches(BlockComment, s);
    forall j | 0 <= j < |s|
      ensures t[j].None?
    {
      BlockNotAt(s, j);
    }
    ScanUnchanged(s, t, 0);
  }

  /** Text with no slash followed by two stars passes the block pass
      unchanged. */
  lemma BlockNoOpenerUnchanged(s: string)
    requires forall j :: !BlockOpenerAt(s, j)
    ensures Substitute(BlockComment, s) == s
  {
    BlockUnterminatedKept(s, |s|);
  }
}
