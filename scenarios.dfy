/**
 The splitter on particular inputs: the behaviours its description lists,
 the effect of removing line comments before block comments, and why
 splitting the statements again is not always stable.

 Each fact about a particular text is its own small lemma; the lemmas
 that state a behaviour chain them.
 */
module Scenarios {
  import opened Wrappers
  import opened PyStr
  import opened CommentPatterns
  import opened ReSub
  import opened CommentPasses
  import opened CypherSplitter

  /** No piece holds a semicolon. */
  predicate NoSemicolons(pieces: seq<string>) {
    forall i :: 0 <= i < |pieces| ==> ';' !in pieces[i]
  }

  /** Text whose comment-free form, cut at its semicolons, is `pieces`
      splits into the non-empty stripped pieces. */
  lemma CommentFreeSplit(s: string, c: string, pieces: seq<string>)
    requires |pieces| > 0 && NoSemicolons(pieces)
    requires StripComments(s) == c && c == Join(pieces, ';')
    ensures CypherParser(s) == DropEmpty(StripEach(pieces))
  {
    SplitJoin(pieces, ';');
  }

  /** Text in which `find` sees no newline has none. */
  lemma NoNewline(s: string)
    requires Find(s, '\n', 0).None?
    ensures Substitute(LineComment, s) == s
  {
    FindIsFirst(s, '\n', 0);
    NoNewlineUnchanged(s);
  }

  /** Text in which `find` sees no slash-star has no block opener. */
  lemma NoOpener(s: string)
    requires FindPair(s, '/', '*', 0).None?
    ensures Substitute(BlockComment, s) == s
  {
    FindPairIsFirst(s, '/', '*', 0);
    assert forall j :: !BlockOpenerAt(s, j) by {
      forall j | BlockOpenerAt(s, j)
        ensures false
      {
        assert PairAt(s, j, '/', '*');
      }
    }
    BlockNoOpenerUnchanged(s);
  }

  /** Text in which `find` sees no star-star has no block opener. */
  lemma NoDoubleStar(s: string)
    requires FindPair(s, '*', '*', 0).None?
    ensures Substitute(BlockComment, s) == s
  {
    FindPairIsFirst(s, '*', '*', 0);
    assert forall j :: !BlockOpenerAt(s, j) by {
      forall j | BlockOpenerAt(s, j)
        ensures false
      {
        assert PairAt(s, j + 1, '*', '*');
      }
    }
    BlockNoOpenerUnchanged(s);
  }

  /** A text that opens with a block opener and holds no star-slash from
      index 3 on passes the block pass unchanged. */
  lemma NeverClosed(s: string)
    requires FindPair(s, '*', '/', 3).None?
    ensures Substitute(BlockComment, s) == s
  {
    FindPairIsFirst(s, '*', '/', 3);
    BlockUnterminatedKept(s, 0);
  }

  /** The line pass on a first line that ends in a newline, followed by
      text with no newline. */
  lemma FirstLine(s: string, line: string, rest: string)
    requires s == line + ['\n'] + rest
    requires Find(line, '\n', 0).None? && Find(rest, '\n', 0).None?
    ensures Substitute(LineComment, s) == KeepLine(line) + rest
  {
    FindIsFirst(line, '\n', 0);
    LineStep(line, rest);
    NoNewline(rest);
  }

  /** The block pass where `find` sees the first slash-star at `i`, a
      second star follows it, and the first star-slash from `i + 3` on is at
      `k`. */
  lemma FirstBlockComment(s: string, i: nat, k: nat)
    requires FindPair(s, '/', '*', 0) == Some(i) && i + 2 < |s| && s[i + 2] == '*'
    requires FindPair(s, '*', '/', i + 3) == Some(k)
    ensures k + 2 <= |s|
    ensures Substitute(BlockComment, s) == s[..i] + Substitute(BlockComment, s[k + 2..])
  {
    FindPairIsFirst(s, '/', '*', 0);
    FindPairIsFirst(s, '*', '/', i + 3);
    assert forall j :: 0 <= j < i ==> !BlockOpenerAt(s, j) by {
      forall j | 0 <= j < i && BlockOpenerAt(s, j)
        ensures false
      {
        assert PairAt(s, j, '/', '*');
      }
    }
    BlockCommentRemoved(s, i, k);
  }

  /** A statement followed by an empty piece filters to the statement. */
  lemma StatementThenEmpty(x: string)
    requires x != [] && IsTrimmed(x)
    ensures DropEmpty(StripEach([x, ""])) == [x]
  {
    StripEachTrimmed([x, ""]);
  }

  /** A statement on its own filters to itself. */
  lemma LoneStatement(x: string)
    requires x != [] && IsTrimmed(x)
    ensures DropEmpty(StripEach([x])) == [x]
  {
    StripEachTrimmed([x]);
  }

  // "A;;B;": consecutive semicolons.

  lemma EmptyPiecesNoComment()
    ensures StripComments("A;;B;") == "A;;B;"
  {
    NoSlashUnchanged("A;;B;");
  }

  /** "A;;B;" gives ["A", "B"]: consecutive and trailing semicolons leave
      empty pieces, which are dropped. */
  lemma EmptyPiecesDropped()
    ensures CypherParser("A;;B;") == ["A", "B"]
  {
    var pieces := ["A", "", "B", ""];
    assert NoSemicolons(pieces) && Join(pieces, ';') == "A;;B;";
    assert DropEmpty(pieces) == ["A", "B"];
    StripEachTrimmed(pieces);
    EmptyPiecesNoComment();
    CommentFreeSplit("A;;B;", "A;;B;", pieces);
  }

  // "//**x*/**y*/": the line pass keeps two slashes no newline follows, and
  // the block pass then finds an opener at index 1 whose removal leaves a
  // new comment behind.

  lemma NestedLinePass()
    ensures Substitute(LineComment, "//**x*/**y*/") == "//**x*/**y*/"
  {
    NoNewline("//**x*/**y*/");
  }

  lemma NestedFirstComment()
    ensures Substitute(BlockComment, "//**x*/**y*/")
      == "//**x*/**y*/"[..1] + Substitute(BlockComment, "//**x*/**y*/"[7..])
  {
    FirstBlockComment("//**x*/**y*/", 1, 5);
  }

  lemma NestedBlockPass()
    ensures Substitute(BlockComment, "//**x*/**y*/") == "/**y*/"
  {
    assert "//**x*/**y*/"[..1] == "/" && "//**x*/**y*/"[7..] == "**y*/";
    assert "/" + "**y*/" == "/**y*/";
    NestedFirstComment();
    NestedTail();
  }

  lemma NestedTail()
    ensures Substitute(BlockComment, "**y*/") == "**y*/"
  {
    NoOpener("**y*/");
  }

  lemma NestedNoComment()
    ensures StripComments("//**x*/**y*/") == "/**y*/"
  {
    NestedLinePass();
    NestedBlockPass();
  }

  // "//**x*/**y*/" gives ["/**y*/"]: what is left of the text is one
  // statement that is itself a comment.
  lemma NestedComments()
    ensures CypherParser("//**x*/**y*/") == ["/**y*/"]
  {
    LoneStatement("/**y*/");
    assert NoSemicolons(["/**y*/"]) && Join(["/**y*/"], ';') == "/**y*/";
    NestedNoComment();
    CommentFreeSplit("//**x*/**y*/", "/**y*/", ["/**y*/"]);
  }

  lemma CommentOnlyLinePass()
    ensures Substitute(LineComment, "/**y*/") == "/**y*/"
  {
    NoNewline("/**y*/");
  }

  lemma CommentOnlyBlockPass()
    ensures Substitute(BlockComment, "/**y*/") == []
  {
    BlockCommentRemoved("/**y*/", 0, 4);
    assert "/**y*/"[4 + 2..] == [];
  }

  lemma CommentOnlyNoComment()
    ensures StripComments("/**y*/") == []
  {
    CommentOnlyLinePass();
    CommentOnlyBlockPass();
  }

  // "/**y*/", one block comment, gives no statement.
  lemma CommentOnly()
    ensures CypherParser("/**y*/") == []
  {
    assert NoSemicolons([""]) && Join([""], ';') == [];
    StripEachTrimmed([""]);
    CommentOnlyNoComment();
    CommentFreeSplit("/**y*/", [], [""]);
  }

  // Splitting the statements again, joined with semicolons, can lose
  // them: the one statement of "//**x*/**y*/" is itself a comment.
  lemma ReparseUnstable()
    ensures CypherParser("//**x*/**y*/") == ["/**y*/"]
    ensures CypherParser(Join(CypherParser("//**x*/**y*/"), ';')) == []
  {
    assert Join(["/**y*/"], ';') == "/**y*/";
    NestedComments();
    CommentOnly();
  }

  // "//c\nM;": a comment line before a statement.

  lemma LeadingLinePass()
    ensures Substitute(LineComment, "//c\nM;") == "M;"
  {
    assert "//c\nM;" == "//c" + ['\n'] + "M;";
    assert KeepLine("//c") == [];
    FirstLine("//c\nM;", "//c", "M;");
  }

  lemma StatementNoBlock()
    ensures Substitute(BlockComment, "M;") == "M;"
  {
    NoOpener("M;");
  }

  lemma LeadingLineNoComment()
    ensures StripComments("//c\nM;") == "M;"
  {
    LeadingLinePass();
    StatementNoBlock();
  }

  /** "//c\nM;" gives ["M"]: a line comment goes with its newline, and the
      statement after it stays. */
  lemma LeadingLineComment()
    ensures CypherParser("//c\nM;") == ["M"]
  {
    StatementThenEmpty("M");
    assert NoSemicolons(["M", ""]) && Join(["M", ""], ';') == "M;";
    LeadingLineNoComment();
    CommentFreeSplit("//c\nM;", "M;", ["M", ""]);
  }

  // "/**c\nc*/M;": a block comment over two lines before a statement.

  lemma BlockLinesLinePass()
    ensures Substitute(LineComment, "/**c\nc*/M;") == "/**c\nc*/M;"
  {
    assert "/**c\nc*/M;" == "/**c" + ['\n'] + "c*/M;";
    assert KeepLine("/**c") + "c*/M;" == "/**c\nc*/M;";
    FirstLine("/**c\nc*/M;", "/**c", "c*/M;");
  }

  lemma BlockLinesComment()
    ensures Substitute(BlockComment, "/**c\nc*/M;") == "/**c\nc*/M;"[..0] + Substitute(BlockComment, "/**c\nc*/M;"[8..])
  {
    FirstBlockComment("/**c\nc*/M;", 0, 6);
  }

  lemma BlockLinesBlockPass()
    ensures Substitute(BlockComment, "/**c\nc*/M;") == "M;"
  {
    assert "/**c\nc*/M;"[..0] == [] && "/**c\nc*/M;"[8..] == "M;";
    BlockLinesComment();
    StatementNoBlock();
  }

  lemma BlockLinesNoComment()
    ensures StripComments("/**c\nc*/M;") == "M;"
  {
    BlockLinesLinePass();
    BlockLinesBlockPass();
  }

  // "/**c\nc*/M;" gives ["M"]: a block comment runs across newlines up to
  // its first star-slash.
  lemma MultiLineBlockComment()
    ensures CypherParser("/**c\nc*/M;") == ["M"]
  {
    StatementThenEmpty("M");
    assert NoSemicolons(["M", ""]) && Join(["M", ""], ';') == "M;";
    BlockLinesNoComment();
    CommentFreeSplit("/**c\nc*/M;", "M;", ["M", ""]);
  }

  // "/*c*/M;": an opener with one star is no comment.

  lemma SingleStarLinePass()
    ensures Substitute(LineComment, "/*c*/M;") == "/*c*/M;"
  {
    NoNewline("/*c*/M;");
  }

  lemma SingleStarBlockPass()
    ensures Substitute(BlockComment, "/*c*/M;") == "/*c*/M;"
  {
    NoDoubleStar("/*c*/M;");
  }

  lemma SingleStarNoComment()
    ensures StripComments("/*c*/M;") == "/*c*/M;"
  {
    SingleStarLinePass();
    SingleStarBlockPass();
  }

  // "/*c*/M;" gives ["/*c*/M"]: only a slash and two stars open a block
  // comment, so a slash and one star stay in the statement.
  lemma SingleStarComment()
    ensures CypherParser("/*c*/M;") == ["/*c*/M"]
  {
    StatementThenEmpty("/*c*/M");
    assert NoSemicolons(["/*c*/M", ""]) && Join(["/*c*/M", ""], ';') == "/*c*/M;";
    SingleStarNoComment();
    CommentFreeSplit("/*c*/M;", "/*c*/M;", ["/*c*/M", ""]);
  }

  // "/**/": the closing star-slash must start at index 3 or later.

  lemma ShortOpenerNoComment()
    ensures StripComments("/**/") == "/**/"
  {
    NoNewline("/**/");
    NeverClosed("/**/");
  }

  // "/**/" gives ["/**/"]: the two stars after the slash cannot also start
  // the star-slash that closes the comment.
  lemma ShortOpenerKept()
    ensures CypherParser("/**/") == ["/**/"]
  {
    LoneStatement("/**/");
    assert NoSemicolons(["/**/"]) && Join(["/**/"], ';') == "/**/";
    ShortOpenerNoComment();
    CommentFreeSplit("/**/", "/**/", ["/**/"]);
  }

  // "/**a//b*/\nR;": two slashes inside a block comment.

  lemma InnerSlashesLinePass()
    ensures Substitute(LineComment, "/**a//b*/\nR;") == "/**aR;"
  {
    assert "/**a//b*/\nR;" == "/**a//b*/" + ['\n'] + "R;";
    assert KeepLine("/**a//b*/") + "R;" == "/**aR;";
    FirstLine("/**a//b*/\nR;", "/**a//b*/", "R;");
  }

  lemma InnerSlashesComment()
    ensures Substitute(BlockComment, "/**a//b*/\nR;") == "/**a//b*/\nR;"[..0] + Substitute(BlockComment, "/**a//b*/\nR;"[9..])
  {
    assert FindPair("/**a//b*/\nR;", '*', '/', 5) == Some(7);
    FirstBlockComment("/**a//b*/\nR;", 0, 7);
  }

  lemma InnerSlashesBlockPass()
    ensures Substitute(BlockComment, "/**a//b*/\nR;") == "\nR;"
  {
    assert "/**a//b*/\nR;"[..0] == [] && "/**a//b*/\nR;"[9..] == "\nR;";
    InnerSlashesComment();
    InnerSlashesTail();
  }

  lemma InnerSlashesTail()
    ensures Substitute(BlockComment, "\nR;") == "\nR;"
  {
    NoOpener("\nR;");
  }

  lemma InnerSlashesUnclosed()
    ensures Substitute(BlockComment, "/**aR;") == "/**aR;"
  {
    NeverClosed("/**aR;");
  }

  lemma InnerSlashesNoComment()
    ensures StripComments("/**a//b*/\nR;") == "/**aR;"
  {
    InnerSlashesLinePass();
    InnerSlashesUnclosed();
  }

  lemma InnerSlashesLast()
    ensures Substitute(LineComment, "\nR;") == "\nR;"
  {
    assert "\nR;" == [] + ['\n'] + "R;" && KeepLine([]) + "R;" == "\nR;";
    FirstLine("\nR;", [], "R;");
  }

  // On "/**a//b*/\nR;" the line pass runs first: the two slashes inside
  // the block comment remove its closing star-slash, and the opener is
  // left unclosed in the text. Removing the block comments first would
  // have removed the whole comment.
  lemma PassOrderMatters()
    ensures StripComments("/**a//b*/\nR;") == "/**aR;"
    ensures Substitute(LineComment, Substitute(BlockComment, "/**a//b*/\nR;")) == "\nR;"
  {
    InnerSlashesNoComment();
    InnerSlashesBlockPass();
    InnerSlashesLast();
  }

  // "/**a//b*/\nR;" gives ["/**aR"]: the statement keeps the unclosed
  // opener and the text the comment held before its two slashes.
  lemma InnerSlashesStatement()
    ensures CypherParser("/**a//b*/\nR;") == ["/**aR"]
  {
    StatementThenEmpty("/**aR");
    assert NoSemicolons(["/**aR", ""]) && Join(["/**aR", ""], ';') == "/**aR;";
    InnerSlashesNoComment();
    CommentFreeSplit("/**a//b*/\nR;", "/**aR;", ["/**aR", ""]);
  }

  // "SELECT 1": no semicolon.

  lemma SelectOneLinePass()
    ensures Substitute(LineComment, "SELECT 1") == "SELECT 1"
  {
    NoNewline("SELECT 1");
  }

  lemma SelectOneBlockPass()
    ensures Substitute(BlockComment, "SELECT 1") == "SELECT 1"
  {
    NoOpener("SELECT 1");
  }

  lemma SelectOneNoComment()
    ensures StripComments("SELECT 1") == "SELECT 1"
  {
    SelectOneLinePass();
    SelectOneBlockPass();
  }

  /** "SELECT 1" gives ["SELECT 1"]: without a terminator the text is one
      statement, its inner space kept. */
  lemma SelectOne()
    ensures CypherParser("SELECT 1") == ["SELECT 1"]
  {
    LoneStatement("SELECT 1");
    assert NoSemicolons(["SELECT 1"]) && Join(["SELECT 1"], ';') == "SELECT 1";
    SelectOneNoComment();
    CommentFreeSplit("SELECT 1", "SELECT 1", ["SELECT 1"]);
  }
}
