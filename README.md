# Cypher statement splitter

`cypher_parser` splits the text of a Cypher module into statements; within
the module it is called by `parse_cypher_file` and `main`. The function makes two
regular-expression passes over the text. The first removes line comments:
two slashes, the rest of the line, and the newline. The second removes block
comments: a slash and two stars, then as little text as possible (newlines
included), then a star and a slash. It then cuts what is left at every
semicolon, strips surrounding whitespace from each piece, and drops the
pieces that end up empty. The statements come back in the order they
appear, and repeated statements are kept.

The model is pure, like the source:

- `PyStr` (pystr.dfy) holds the string operations:
  - `Strip` and `Split` model the source's `strip()` and `split(';')`.
    `Strip` uses CPython's `str.isspace` set of whitespace code points.
  - `Find` and `FindPair` search for one character and for a pair of
    characters. The regex matching of the comment patterns is built on them.
  - `Join` (`';'.join(...)`), `Count` and `Contains` (`w in s`) are not
    called by the source. They exist only to state properties.
- `CommentPatterns` (comments.dfy) gives each comment pattern's match at the
  start of a text, as Python's `re` module finds it.
- `ReSub` (resub.dfy) models `re.sub(pattern, '', text)` as a left-to-right
  scan. At each index, a match is dropped and the scan jumps past it;
  otherwise the character is kept.
- `CommentPasses` (passes.dfy) proves what each of the two passes does.
- `CypherSplitter` (cypher_parser.dfy) holds `CypherParser` and the
  properties of the whole splitter.
- `Scenarios` (scenarios.dfy) proves the splitter's result on small concrete
  texts, including the ones where comment removal behaves unexpectedly.
- `Wrappers` (wrappers.dfy) holds the `Option` type.

Joining the statements of clean input (input that holds no comment marker)
with semicolons and splitting again gives the same statements. The model
proves this, and shows that the restriction is needed:

- `CypherSplitter.CleanInputReparse` proves the round trip for every input
  with no two adjacent slashes and no slash followed by two stars. It
  follows from `CypherSplitter.ReparseStable`, which needs only the
  statements to be free of comment openers.
- `Scenarios.ReparseUnstable` shows that the round trip can fail once the
  input holds comments. The block pass removes one comment and leaves a new
  complete comment behind, so splitting the output again drops it.

## Model

| member | source | states |
|---|---|---|
| CypherSplitter.CypherParser | notebooks/kg-construction/cypher_parser.py:7-18 | Every statement returned is non-empty, has no leading or trailing whitespace, and contains no semicolon. There is at most one more statement than there are semicolons left after comment removal. |
| CypherSplitter.StripComments | notebooks/kg-construction/cypher_parser.py:12-13 | The line pass, then the block pass on what it leaves. The result is no longer than the input. |
| CypherSplitter.StripEach | notebooks/kg-construction/cypher_parser.py:15 | One entry per piece, each without whitespace at either end. |
| CypherSplitter.DropEmpty | notebooks/kg-construction/cypher_parser.py:16 | No longer than the input. Every entry is non-empty and comes from the input. |
| CypherSplitter.StatementsInOrder | notebooks/kg-construction/cypher_parser.py:14-16 | The statements are exactly the stripped pieces that are non-empty, taken in increasing order of position, with repetitions kept. |
| CypherSplitter.NonEmptyIndicesSpec | notebooks/kg-construction/cypher_parser.py:16 | The positions the filter keeps are strictly increasing. Each kept position holds a non-empty piece, and every non-empty piece's position is kept. |
| CypherSplitter.DropEmptySelects | notebooks/kg-construction/cypher_parser.py:16 | Dropping the empty pieces gives the pieces at the kept positions, in order. |
| CypherSplitter.StripCommentsDeletes | notebooks/kg-construction/cypher_parser.py:12-13 | Comment removal only deletes characters. What it keeps comes from the input, in the same order. |
| CypherSplitter.NoCommentUnchanged | notebooks/kg-construction/cypher_parser.py:12-13 | Text with no two adjacent slashes and no slash followed by two stars comes through comment removal unchanged. |
| CypherSplitter.NoSlashUnchanged | notebooks/kg-construction/cypher_parser.py:12-13 | Text without a slash comes through comment removal unchanged. |
| CypherSplitter.BlankInput | notebooks/kg-construction/cypher_parser.py:12-16 | Input that is empty or all whitespace gives no statement. |
| CypherSplitter.EmptyInput | notebooks/kg-construction/cypher_parser.py:12-16 | The empty module gives no statement. |
| CypherSplitter.SingleStatement | notebooks/kg-construction/cypher_parser.py:12-16 | Input that is not blank and has no semicolon and no comment opener gives exactly one statement: the input stripped. |
| CypherSplitter.DropEmptyKeepsAll | notebooks/kg-construction/cypher_parser.py:16 | A list with no empty entry passes the filter unchanged. |
| CypherSplitter.DropEmptyAllEmpty | notebooks/kg-construction/cypher_parser.py:16 | A list of empty entries filters to the empty list. |
| CypherSplitter.StripEachTrimmed | notebooks/kg-construction/cypher_parser.py:15 | Stripping already-stripped pieces changes nothing. |
| CypherSplitter.JoinNoComment | notebooks/kg-construction/cypher_parser.py:12-14 | Joining texts that hold no comment opener with semicolons does not create a comment: comment removal leaves the joined text unchanged. |
| CypherSplitter.ParseUncommented | notebooks/kg-construction/cypher_parser.py:14-16 | Comment-free text built by joining a non-empty list of semicolon-free pieces splits into those pieces. The statements are the non-empty stripped pieces. |
| CypherSplitter.JoinedStatementsRoundTrip | notebooks/kg-construction/cypher_parser.py:12-16 | Statements with no comment opener, joined with semicolons, split back into the same list. |
| CypherSplitter.ReparseStable | notebooks/kg-construction/cypher_parser.py:12-16 | If no statement contains a comment opener, splitting the output joined with semicolons gives the output again. |
| CypherSplitter.StatementOccurs | notebooks/kg-construction/cypher_parser.py:14-15 | Every statement is a contiguous piece of the text left by comment removal. |
| CypherSplitter.CleanInputReparse | notebooks/kg-construction/cypher_parser.py:12-16 | For input with no two adjacent slashes and no slash followed by two stars, splitting the statements again, joined with semicolons, gives the same statements. |
| PyStr.SplitPieceOccurs | notebooks/kg-construction/cypher_parser.py:14 | Every piece of a split occurs in the text. |
| PyStr.StripOccurs | notebooks/kg-construction/cypher_parser.py:15 | The strip of a text occurs in it, where its leading whitespace ends. |
| ReSub.Substitute | notebooks/kg-construction/cypher_parser.py:12-13 | The substitution never makes the text longer. |
| ReSub.ScanFixedIff | notebooks/kg-construction/cypher_parser.py:12-13 | The scan leaves the text unchanged if and only if the pattern matches nowhere in it. |
| ReSub.ScanCopies | notebooks/kg-construction/cypher_parser.py:12-13 | Text before the leftmost match is copied unchanged. |
| ReSub.SubstituteFrom | notebooks/kg-construction/cypher_parser.py:12-13 | After a match, the scan continues exactly as the substitution does on the rest of the text. |
| ReSub.SubstituteDeletes | notebooks/kg-construction/cypher_parser.py:12-13 | Substituting with the empty string only deletes characters. |
| CommentPatterns.LineMatchSpec | notebooks/kg-construction/cypher_parser.py:12 | The line pattern matches at a position if and only if two slashes start there and a newline follows them. The match ends at the first such newline. |
| CommentPatterns.BlockMatchSpec | notebooks/kg-construction/cypher_parser.py:13 | The block pattern matches at a position if and only if a slash and two stars start there and a star-slash pair starts at least 3 characters later. The match ends at the first such pair. |
| CommentPasses.LineTableAt | notebooks/kg-construction/cypher_parser.py:12 | A line comment starts at a position of the text if and only if two slashes are there and a newline comes somewhere after them. |
| CommentPasses.LineStep | notebooks/kg-construction/cypher_parser.py:12 | A line with two slashes is cut at the first pair, and its newline is removed with the comment. A line without two slashes is kept whole, newline included. The pass then continues after that newline. |
| CommentPasses.LineCommentsByLine | notebooks/kg-construction/cypher_parser.py:12 | The line pass equals the line-by-line reference definition. Two slashes on a last line with no newline after it are kept. |
| CommentPasses.NoNewlineUnchanged | notebooks/kg-construction/cypher_parser.py:12 | Text without a newline comes through the line pass unchanged, even if it contains two slashes. |
| CommentPasses.LineCommentFreeIff | notebooks/kg-construction/cypher_parser.py:12 | The line pass leaves a text unchanged if and only if no two slashes in it are followed later by a newline. |
| CommentPasses.StripLineCommentsFree | notebooks/kg-construction/cypher_parser.py:12 | The line-by-line reference leaves no line comment. |
| CommentPasses.LineCommentsGone | notebooks/kg-construction/cypher_parser.py:12 | After the line pass no line comment is left, so running the pass again changes nothing. |
| CommentPasses.BlockTableAt | notebooks/kg-construction/cypher_parser.py:13 | A block-comment match starts with a slash and two stars, is at least 5 characters long, and ends with a star and a slash. |
| CommentPasses.BlockCommentRemoved | notebooks/kg-construction/cypher_parser.py:13 | The text before the leftmost opener is kept. The comment through the first star-slash pair at least 3 characters past the opener is removed. The pass then continues after it. |
| CommentPasses.BlockUnterminatedKept | notebooks/kg-construction/cypher_parser.py:13 | When the leftmost opener has no star-slash pair starting 3 or more characters after it, the opener stays in the text and the pass changes nothing. |
| CommentPasses.BlockNoOpenerUnchanged | notebooks/kg-construction/cypher_parser.py:13 | Text with no slash followed by two stars comes through the block pass unchanged. |
| PyStr.Strip | notebooks/kg-construction/cypher_parser.py:15 | The result has no whitespace at either end, and it is the slice of the input between its leading and trailing whitespace. |
| PyStr.StripEmpty | notebooks/kg-construction/cypher_parser.py:15 | A strip is empty if and only if the text is all whitespace. |
| PyStr.StripUnique | notebooks/kg-construction/cypher_parser.py:15 | The strip is the only trimmed slice that has nothing but whitespace on either side. |
| PyStr.StripIdempotent | notebooks/kg-construction/cypher_parser.py:15 | Stripping twice is the same as stripping once. |
| PyStr.Split | notebooks/kg-construction/cypher_parser.py:14 | k separators give k + 1 pieces, and no piece contains the separator. |
| PyStr.JoinSplit | notebooks/kg-construction/cypher_parser.py:14 | Joining the pieces of a split with the separator gives back the text. |
| PyStr.SplitJoin | notebooks/kg-construction/cypher_parser.py:14 | A non-empty list of separator-free pieces, joined with the separator, splits back into the same pieces. |
| PyStr.SplitAllSpace | notebooks/kg-construction/cypher_parser.py:14 | Every piece of an all-whitespace text is all whitespace. |
| Scenarios.SelectOne | notebooks/kg-construction/cypher_parser.py:12-16 | `"SELECT 1"` gives `["SELECT 1"]`: with no semicolon the text is one statement, and its inner space is kept. |
| Scenarios.EmptyPiecesDropped | notebooks/kg-construction/cypher_parser.py:14-16 | `"A;;B;"` gives `["A", "B"]`: the empty pieces left by consecutive and trailing semicolons are dropped. |
| Scenarios.LeadingLineComment | notebooks/kg-construction/cypher_parser.py:12-16 | `"//c\nM;"` gives `["M"]`: the comment line goes together with its newline, and the statement after it stays. |
| Scenarios.MultiLineBlockComment | notebooks/kg-construction/cypher_parser.py:13-16 | `"/**c\nc*/M;"` gives `["M"]`: the block comment spans the newline up to its first star-slash. |
| Scenarios.SingleStarComment | notebooks/kg-construction/cypher_parser.py:13-16 | `"/*c*/M;"` gives `["/*c*/M"]`: a slash followed by a single star opens no comment, so that text stays in the statement. |
| Scenarios.ShortOpenerKept | notebooks/kg-construction/cypher_parser.py:13-16 | `"/**/"` gives `["/**/"]`: the stars of the opener cannot also begin the closing star-slash, so the text is not a comment. |
| Scenarios.PassOrderMatters | notebooks/kg-construction/cypher_parser.py:12-13 | Comment removal turns `"/**a//b*/\nR;"` into `"/**aR;"`: the line pass removes the two slashes through the newline, which leaves the opener unclosed. Running the passes in the other order gives `"\nR;"`. |
| Scenarios.InnerSlashesStatement | notebooks/kg-construction/cypher_parser.py:12-16 | `"/**a//b*/\nR;"` gives `["/**aR"]`: the unclosed opener ends up inside the statement. |
| Scenarios.NestedComments | notebooks/kg-construction/cypher_parser.py:12-16 | `"//**x*/**y*/"` gives `["/**y*/"]`: the two slashes have no newline after them, so the line pass keeps them. The block pass then removes the comment that starts at the second slash and leaves a new comment behind, which becomes the statement. |
| Scenarios.CommentOnly | notebooks/kg-construction/cypher_parser.py:12-16 | `"/**y*/"`, a single block comment, gives no statement. |
| Scenarios.ReparseUnstable | notebooks/kg-construction/cypher_parser.py:12-16 | Joining the statements of `"//**x*/**y*/"` (namely `["/**y*/"]`) with semicolons and splitting again gives `[]`. |

## Left out

- `parse_cypher_file` (cypher_parser.py:20-26) only reads a file and calls the splitter. File I/O is not modelled.
- `main` (cypher_parser.py:28-43) parses command-line arguments and prints counts. The command line and printing are not modelled.
- Semicolons and comment markers inside string literals are treated like any others, as they are in the code: it has no quote-aware splitting.
- PyStr.IsSpace: fixed to the whitespace set of current CPython releases. Changes to that set between Unicode versions are not modelled.
- CypherSplitter.ReparseStable: stated only for statements without comment openers, because the claim is false for input with comments (see Scenarios.ReparseUnstable). CypherSplitter.CleanInputReparse gives the clean-input form.
- Each `Scenarios` lemma is about one given text only. The texts are short stand-ins for realistic Cypher and show the same behaviour with less text.
- Characters are Dafny `char`s, i.e. Unicode scalar values. Python strings that hold lone surrogates are not modelled.
