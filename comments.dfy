/**
 The two comment patterns of the Cypher statement splitter, as Python's
 `re` module matches them at the start of a text.

 The line pattern is "slash slash, then any characters except a newline,
 then a newline": `.` does not cross a newline, so a match ends at the
 first newline after the two slashes. The block pattern is "slash star
 star, then as few characters as possible, newlines included, then star
 slash": the closing pair may start no earlier than index 3, so the four
 characters slash star star slash do not form a comment.
 */
module CommentPatterns {
  import opened Wrappers
  import opened PyStr

  /** The two patterns `re.sub` removes, in the order it removes them. */
  datatype Pattern = LineComment | BlockComment

  /** `s` starts with two slashes. */
  predicate OpensLine(s: string) {
    PairAt(s, 0, '/', '/')
  }

  /** A slash and two stars start at index `j` of `s`. */
  predicate BlockOpenerAt(s: string, j: int) {
    0 <= j && j + 2 < |s| && s[j] == '/' && s[j + 1] == '*' && s[j + 2] == '*'
  }

  /** `s` starts with a slash and two stars. */
  predicate OpensBlock(s: string) {
    BlockOpenerAt(s, 0)
  }

  /** The end of the line-comment match at the start of `s`: just past the
      first newline after the two slashes (see LineMatchSpec). */
  function LineMatch(s: string): (e: Option<nat>)
    ensures e.Some? ==> OpensLine(s) && 3 <= e.value <= |s| && s[e.value - 1] == '\n'
  {
    if OpensLine(s) then
      match Find(s, '\n', 2)
      case Some(n) => Some(n + 1)
      case None => None
    else None
  }

  /** The end of the block-comment match at the start of `s`: just past the
      first star-slash pair that starts at index 3 or later (see
      BlockMatchSpec). */
  function BlockMatch(s: string): (e: Option<nat>)
    ensures e.Some? ==> OpensBlock(s) && 5 <= e.value <= |s| && PairAt(s, e.value - 2, '*', '/')
  {
    if OpensBlock(s) then
      match FindPair(s, '*', '/', 3)
      case Some(k) => Some(k + 2)
      case None => None
    else None
  }

  /** The end of the match of `p` at the start of `s`, if `p` matches there.
      Neither pattern matches the empty string, and no match runs past the
      text. */
  function Match(p: Pattern, s: string): (e: Option<nat>)
    ensures e.Some? ==> 1 <= e.value <= |s|
  {
    match p
    case LineComment => LineMatch(s)
    case BlockComment => BlockMatch(s)
  }

  /** The line pattern matches at the start of `s` exactly when `s` opens
      with two slashes and a newline follows them, and the match ends at the
      first such newline. */
  lemma LineMatchSpec(s: string)
    ensures LineMatch(s).Some? <==> OpensLine(s) && exists k :: 2 <= k < |s| && s[k] == '\n'
    ensures LineMatch(s).Some? ==> forall k :: 2 <= k < LineMatch(s).value - 1 ==> s[k] != '\n'
  {
    if OpensLine(s) {
      FindIsFirst(s, '\n', 2);
    }
  }

  /** The block pattern matches at the start of `s` exactly when `s` opens
      with a slash and two stars and a star-slash pair starts at index 3 or
      later, and the match ends at the first such pair. */
  lemma BlockMatchSpec(s: string)
    ensures BlockMatch(s).Some? <==> OpensBlock(s) && exists k :: 3 <= k && PairAt(s, k, '*', '/')
    ensures BlockMatch(s).Some? ==> forall k :: 3 <= k < BlockMatch(s).value - 2 ==> !PairAt(s, k, '*', '/')
  {
    if OpensBlock(s) {
      FindPairIsFirst(s, '*', '/', 3);
    }
  }
}
