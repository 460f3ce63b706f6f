/**
 The Cypher statement splitter: comments are removed from a Cypher module
 (line comments first, then block comments), the text is split at every
 semicolon, each piece is stripped of surrounding whitespace, and the empty
 pieces are dropped. What remains is the list of statements, in the order
 they appear.
 */
module CypherSplitter {
  import opened PyStr
  import opened CommentPatterns
  import opened ReSub
  import opened CommentPasses

  /** The comment removal: the line pass, then the block pass on what it
      leaves. */
  function StripComments(cypher: string): (r: string)
    ensures |r| <= |cypher|
  {
    Substitute(BlockComment, Substitute(LineComment, cypher))
  }

  /** `[x.strip() for x in pieces]`. */
  function StripEach(pieces: seq<string>): (r: seq<string>)
    ensures |r| == |pieces|
    ensures forall i :: 0 <= i < |r| ==> IsTrimmed(r[i])
  {
    seq(|pieces|, i requires 0 <= i < |pieces| => Strip(pieces[i]))
  }

  /** `[x for x in xs if x != '']` (see DropEmptySelects). */
  function DropEmpty(xs: seq<string>): (r: seq<string>)
    ensures |r| <= |xs|
    ensures forall i :: 0 <= i < |r| ==> r[i] != [] && r[i] in xs
  {
    if xs == [] then []
    else (if xs[0] == [] then [] else [xs[0]]) + DropEmpty(xs[1..])
  }

  /** The indices of the non-empty entries of `xs` at `from` or later, in
      increasing order. */
  function NonEmptyIndices(xs: seq<string>, from: nat): (ks: seq<nat>)
    requires from <= |xs|
    ensures forall j :: 0 <= j < |ks| ==> from <= ks[j] < |xs|
    decreases |xs| - from
  {
    if from == |xs| then []
    else (if xs[from] != [] then [from] else []) + NonEmptyIndices(xs, from + 1)
  }

  /** NonEmptyIndices lists, in strictly increasing order, exactly the
      indices at `from` or later whose entry is non-empty. */
  lemma NonEmptyIndicesSpec(xs: seq<string>, from: nat)
    requires from <= |xs|
    ensures var ks := NonEmptyIndices(xs, from);
      && (forall j :: 0 <= j < |ks| ==> xs[ks[j]] != [])
      && StrictlyIncreasing(ks)
      && (forall i :: from <= i < |xs| && xs[i] != [] ==> i in ks)
  {
    NonEmptyIndicesSelect(xs, from);
    NonEmptyIndicesIncrease(xs, from);
    NonEmptyIndicesComplete(xs, from);
  }

  lemma {:induction false} NonEmptyIndicesSelect(xs: seq<string>, from: nat)
    requires from <= |xs|
    ensures var ks := NonEmptyIndices(xs, from);
      forall j :: 0 <= j < |ks| ==> xs[ks[j]] != []
    decreases |xs| - from
  {
    if from < |xs| {
      NonEmptyIndicesSelect(xs, from + 1);
      var h: seq<nat> := if xs[from] != [] then [from] else [];
      assert NonEmptyIndices(xs, from) == h + NonEmptyIndices(xs, from + 1);
    }
  }

  /** Each index is smaller than every one after it. */
  predicate StrictlyIncreasing(ks: seq<nat>) {
    forall j, l :: 0 <= j < l < |ks| ==> ks[j] < ks[l]
  }

  lemma ConsIncreasing(k: nat, ks: seq<nat>)
    requires StrictlyIncreasing(ks) && forall j :: 0 <= j < |ks| ==> k < ks[j]
    ensures StrictlyIncreasing([k] + ks)
  {
    var r := [k] + ks;
    forall j, l | 0 <= j < l < |r|
      ensures r[j] < r[l]
    {
      assert r[l] == ks[l - 1];
      if j > 0 {
        assert r[j] == ks[j - 1];
      }
    }
  }

  lemma {:induction false} NonEmptyIndicesIncrease(xs: seq<string>, from: nat)
    requires from <= |xs|
    ensures StrictlyIncreasing(NonEmptyIndices(xs, from))
    decreases |xs| - from
  {
    if from < |xs| {
      NonEmptyIndicesIncrease(xs, from + 1);
      if xs[from] != [] {
        ConsIncreasing(from, NonEmptyIndices(xs, from + 1));
      }
    }
  }

  lemma {:induction false} NonEmptyIndicesComplete(xs: seq<string>, from: nat)
    requires from <= |xs|
    ensures var ks := NonEmptyIndices(xs, from);
      forall i :: from <= i < |xs| && xs[i] != [] ==> i in ks
    decreases |xs| - from
  {
    if from < |xs| {
      NonEmptyIndicesComplete(xs, from + 1);
    }
  }

  /** The entries of `xs` at the indices `ks`, in the order of `ks`. */
  function Pick(xs: seq<string>, ks: seq<nat>): seq<string>
    requires forall j :: 0 <= j < |ks| ==> ks[j] < |xs|
  {
    seq(|ks|, j requires 0 <= j < |ks| => xs[ks[j]])
  }

  lemma PickConcat(xs: seq<string>, a: seq<nat>, b: seq<nat>)
    requires forall j :: 0 <= j < |a| ==> a[j] < |xs|
    requires forall j :: 0 <= j < |b| ==> b[j] < |xs|
    ensures Pick(xs, a + b) == Pick(xs, a) + Pick(xs, b)
  {
    assert forall j :: 0 <= j < |b| ==> (a + b)[|a| + j] == b[j];
  }

  /** The filter keeps exactly the non-empty entries, in their order and
      with their repetitions. */
  lemma {:induction false} DropEmptySelects(xs: seq<string>, from: nat)
    requires from <= |xs|
    ensures DropEmpty(xs[from..]) == Pick(xs, NonEmptyIndices(xs, from))
    decreases |xs| - from
  {
    if from < |xs| {
      DropEmptySelects(xs, from + 1);
      var h: seq<nat> := if xs[from] != [] then [from] else [];
      var ks := NonEmptyIndices(xs, from + 1);
      assert NonEmptyIndices(xs, from) == h + ks;
      PickConcat(xs, h, ks);
      assert Pick(xs, h) == (if xs[from] == [] then [] else [xs[from]]);
      assert xs[from..][0] == xs[from] && xs[from..][1..] == xs[from + 1..];
    }
  }

  /** A statement as the splitter returns it: non-empty, without
      surrounding whitespace, and without a semicolon. */
  predicate IsStatement(x: string) {
    x != [] && IsTrimmed(x) && ';' !in x
  }

  /** `cypher_parser(cypher)`: every statement is non-empty, stripped and
      free of semicolons, and there are at most one more statements than
      semicolons left after comment removal. */
  function CypherParser(cypher: string): (statements: seq<string>)
    ensures forall i :: 0 <= i < |statements| ==> IsStatement(statements[i])
    ensures |statements| <= Count(StripComments(cypher), ';') + 1
  {
    var pieces := Split(StripComments(cypher), ';');
    var stripped := StripEach(pieces);
    assert forall i :: 0 <= i < |stripped| ==> ';' !in stripped[i] by {
      forall i | 0 <= i < |stripped|
        ensures ';' !in stripped[i]
      {
        StripInside(pieces[i], ';');
      }
    }
    DropEmpty(stripped)
  }

  /** Stripping removes characters only from the ends. */
  lemma StripInside(s: string, c: char)
    requires c !in s
    ensures c !in Strip(s)
  {
  }

  /** A statement is exactly a non-empty stripped piece: the statements are
      the stripped pieces at the indices whose stripped piece is non-empty,
      in increasing order of index (see NonEmptyIndicesSpec), repetitions
      included. */
  lemma StatementsInOrder(cypher: string)
    ensures var stripped := StripEach(Split(StripComments(cypher), ';'));
      CypherParser(cypher) == Pick(stripped, NonEmptyIndices(stripped, 0))
  {
    var stripped := StripEach(Split(StripComments(cypher), ';'));
    DropEmptySelects(stripped, 0);
    assert stripped[0..] == stripped;
  }

  /** Comment removal only deletes: what it keeps comes from the input, in
      order. */
  lemma StripCommentsDeletes(cypher: string)
    ensures IsSubsequence(StripComments(cypher), cypher)
  {
    var lines := Substitute(LineComment, cypher);
    SubstituteDeletes(LineComment, cypher);
    SubstituteDeletes(BlockComment, lines);
    SubsequenceTransitive(StripComments(cypher), lines, cypher);
  }

  /** Two slashes at `j` are an occurrence of the word of two slashes. */
  lemma PairOccurs(s: string)
    ensures forall j :: PairAt(s, j, '/', '/') ==> OccursAt(s, "//", j)
  {
    forall j | PairAt(s, j, '/', '/')
      ensures OccursAt(s, "//", j)
    {
      assert s[j..j + 2] == "//";
    }
  }

  /** A block-comment opener at `j` is an occurrence of its three characters. */
  lemma OpenerOccurs(s: string)
    ensures forall j :: BlockOpenerAt(s, j) ==> OccursAt(s, "/**", j)
  {
    forall j | BlockOpenerAt(s, j)
      ensures OccursAt(s, "/**", j)
    {
      assert s[j..j + 3] == "/**";
    }
  }

  /** Text with no two slashes and no slash followed by two stars has no
      comment to remove. */
  lemma NoCommentUnchanged(s: string)
    requires forall j :: !PairAt(s, j, '/', '/')
    requires forall j :: !BlockOpenerAt(s, j)
    ensures StripComments(s) == s
  {
    var t := Matches(LineComment, s);
    forall j | 0 <= j < |s|
      ensures t[j].None?
    {
      LineNotAt(s, j);
    }
    ScanUnchanged(s, t, 0);
    BlockNoOpenerUnchanged(s);
  }

  /** Text without a slash has no comment to remove. */
  lemma NoSlashUnchanged(s: string)
    requires '/' !in s
    ensures StripComments(s) == s
  {
    NoCommentUnchanged(s);
  }

  /** A list of empty entries passes the filter as the empty list. */
  lemma {:induction false} DropEmptyAllEmpty(xs: seq<string>)
    requires forall i :: 0 <= i < |xs| ==> xs[i] == []
    ensures DropEmpty(xs) == []
  {
    if xs != [] {
      DropEmptyAllEmpty(xs[1..]);
    }
  }

  /** Input that is empty or all whitespace holds no statement. */
  lemma BlankInput(cypher: string)
    requires AllSpace(cypher)
    ensures CypherParser(cypher) == []
  {
    NoSlashUnchanged(cypher);
    var pieces := Split(cypher, ';');
    SplitAllSpace(cypher, ';');
    forall i | 0 <= i < |pieces|
      ensures Strip(pieces[i]) == []
    {
      StripEmpty(pieces[i]);
    }
    DropEmptyAllEmpty(StripEach(pieces));
  }

  /** The empty module holds no statement. */
  lemma EmptyInput()
    ensures CypherParser([]) == []
  {
    BlankInput([]);
  }

  /** `c` does not occur in `s`. */
  lemma {:induction false} CountAbsent(s: string, c: char)
    requires c !in s
    ensures Count(s, c) == 0
  {
    if s != [] {
      CountAbsent(s[1..], c);
    }
  }

  /** Input with no semicolon and no comment opener that is not all
      whitespace is one statement: the input stripped. */
  lemma SingleStatement(cypher: string)
    requires ';' !in cypher
    requires forall j :: !PairAt(cypher, j, '/', '/')
    requires forall j :: !BlockOpenerAt(cypher, j)
    requires !AllSpace(cypher)
    ensures CypherParser(cypher) == [Strip(cypher)]
  {
    NoCommentUnchanged(cypher);
    CountAbsent(cypher, ';');
    JoinSplit(cypher, ';');
    StripEmpty(cypher);
  }

  /** A stripped text is its own strip. */
  lemma StripTrimmed(x: string)
    requires IsTrimmed(x)
    ensures Strip(x) == x
  {
    StripUnique(x, 0, |x|);
  }

  /** A list with no empty entry passes the filter unchanged. */
  lemma {:induction false} DropEmptyKeepsAll(xs: seq<string>)
    requires forall i :: 0 <= i < |xs| ==> xs[i] != []
    ensures DropEmpty(xs) == xs
  {
    if xs != [] {
      DropEmptyKeepsAll(xs[1..]);
    }
  }

  /** Every entry of `xs` is a statement. */
  predicate AllStatements(xs: seq<string>) {
    forall i :: 0 <= i < |xs| ==> IsStatement(xs[i])
  }

  /** No entry of `xs` holds two slashes or a slash followed by two stars. */
  ghost predicate NoCommentOpeners(xs: seq<string>) {
    forall i :: 0 <= i < |xs| ==> !Contains(xs[i], "//") && !Contains(xs[i], "/**")
  }

  /** Joining texts with no comment opener in them with semicolons
      makes no comment opener. */
  lemma JoinNoComment(xs: seq<string>)
    requires NoCommentOpeners(xs)
    ensures StripComments(Join(xs, ';')) == Join(xs, ';')
  {
    var s := Join(xs, ';');
    assert forall j :: !PairAt(s, j, '/', '/') by {
      ContainsJoin(xs, ';', "//");
      PairOccurs(s);
    }
    assert forall j :: !BlockOpenerAt(s, j) by {
      ContainsJoin(xs, ';', "/**");
      OpenerOccurs(s);
    }
    NoCommentUnchanged(s);
  }

  /** Pieces without a semicolon, joined with semicolons into a text with
      no comment, split back into those pieces: the statements are the
      non-empty stripped pieces. */
  lemma ParseUncommented(pieces: seq<string>)
    requires |pieces| > 0 && forall i :: 0 <= i < |pieces| ==> ';' !in pieces[i]
    requires StripComments(Join(pieces, ';')) == Join(pieces, ';')
    ensures CypherParser(Join(pieces, ';')) == DropEmpty(StripEach(pieces))
  {
    SplitJoin(pieces, ';');
  }

  /** Stripping each of a list of stripped texts changes nothing. */
  lemma StripEachTrimmed(xs: seq<string>)
    requires forall i :: 0 <= i < |xs| ==> IsTrimmed(xs[i])
    ensures StripEach(xs) == xs
  {
    forall i | 0 <= i < |xs|
      ensures Strip(xs[i]) == xs[i]
    {
      StripTrimmed(xs[i]);
    }
  }

  /** Statements with no comment opener in them, joined with semicolons,
      are split back into the same statements. */
  lemma JoinedStatementsRoundTrip(xs: seq<string>)
    requires AllStatements(xs)
    requires NoCommentOpeners(xs)
    ensures CypherParser(Join(xs, ';')) == xs
  {
    if |xs| == 0 {
      RoundTripEmpty(xs);
    } else {
      RoundTripNonEmpty(xs);
    }
  }

  lemma RoundTripEmpty(xs: seq<string>)
    requires |xs| == 0
    ensures CypherParser(Join(xs, ';')) == xs
  {
    assert Join(xs, ';') == [];
    EmptyInput();
  }

  lemma RoundTripNonEmpty(xs: seq<string>)
    requires |xs| > 0
    requires AllStatements(xs)
    requires NoCommentOpeners(xs)
    ensures CypherParser(Join(xs, ';')) == xs
  {
    JoinNoComment(xs);
    ParseUncommented(xs);
    StripEachTrimmed(xs);
    DropEmptyKeepsAll(xs);
  }

  /** Splitting the statements again, joined with semicolons, gives them
      back when none of them holds a comment opener. */
  lemma ReparseStable(cypher: string)
    requires NoCommentOpeners(CypherParser(cypher))
    ensures CypherParser(Join(CypherParser(cypher), ';')) == CypherParser(cypher)
  {
    JoinedStatementsRoundTrip(CypherParser(cypher));
  }

  /** Every statement occurs in the text left by comment removal. */
  lemma StatementOccurs(cypher: string, x: string)
    requires x in CypherParser(cypher)
    ensures exists m :: OccursAt(StripComments(cypher), x, m)
  {
    var pieces := Split(StripComments(cypher), ';');
    var stripped := StripEach(pieces);
    assert x in stripped;
    var k :| 0 <= k < |stripped| && stripped[k] == x;
    SplitPieceOccurs(StripComments(cypher), ';', k);
    var i :| OccursAt(StripComments(cypher), pieces[k], i);
    StripOccurs(pieces[k]);
    OccursTrans(StripComments(cypher), pieces[k], x, i, StripStart(pieces[k], 0));
  }

  /** What occurs in a text with no comment opener has none either. */
  lemma OccursNoOpener(s: string, q: string, m: int)
    requires forall j :: !PairAt(s, j, '/', '/') && !BlockOpenerAt(s, j)
    requires OccursAt(s, q, m)
    ensures !Contains(q, "//") && !Contains(q, "/**")
  {
    forall a | OccursAt(q, "//", a)
      ensures false
    {
      OccursTrans(s, q, "//", m, a);
      assert s[m + a..m + a + 2][0] == s[m + a] && s[m + a..m + a + 2][1] == s[m + a + 1];
      assert PairAt(s, m + a, '/', '/');
    }
    forall a | OccursAt(q, "/**", a)
      ensures false
    {
      OccursTrans(s, q, "/**", m, a);
      var w := s[m + a..m + a + 3];
      assert w[0] == s[m + a] && w[1] == s[m + a + 1] && w[2] == s[m + a + 2];
      assert BlockOpenerAt(s, m + a);
    }
  }

  /** For input with no comment opener, splitting the statements again,
      joined with semicolons, gives them back. */
  lemma CleanInputReparse(cypher: string)
    requires forall j :: !PairAt(cypher, j, '/', '/') && !BlockOpenerAt(cypher, j)
    ensures CypherParser(Join(CypherParser(cypher), ';')) == CypherParser(cypher)
  {
    NoCommentUnchanged(cypher);
    var xs := CypherParser(cypher);
    forall i | 0 <= i < |xs|
      ensures !Contains(xs[i], "//") && !Contains(xs[i], "/**")
    {
      StatementOccurs(cypher, xs[i]);
      var m :| OccursAt(cypher, xs[i], m);
      OccursNoOpener(cypher, xs[i], m);
    }
    ReparseStable(cypher);
  }
}
