# cowrite: reading an edit reply and splicing it into a file

cowrite asks a language model for a change to a file. The reply holds the
new content in one fenced code block and a line `LINES: <start>-<end>`
naming the original lines that the content replaces. This model covers
the string and line handling of that path:

- unwrapping a fenced block (`without_quotes`);
- reading the range and the section out of the reply (`diff`, lines 60-63);
- splicing the section into the original lines and reading the exit
  status of diff(1) (`generate_diff`);
- cleaning the file-name answer (`files`, line 33);
- removing ANSI colour codes in the command-line front end
  (`remove_shell_colors`).

Everything is modelled as pure functions over `string` (`seq<char>`) and
`seq<string>`. Ruby's core methods are written out in module `Ruby`, with
their edge cases:

- `strip` also removes NUL;
- `chomp` removes one "\r\n", "\n" or "\r";
- `split("\n", -1)` keeps trailing empty pieces and gives `[]` for "";
- plain `split("\n")` drops trailing empty pieces;
- `Integer("08")` raises and `Integer("010")` is 8, because a leading zero
  selects octal;
- `a[x..y] = b` converts both bounds to a C `long`, counts negative bounds
  from the end and pads with `nil` past the end. It raises RangeError when a
  bound lies outside the `long` range (above 2^63-1) or when the start is
  still negative after counting from the end.

Several inputs come from outside the code. The model takes them as
parameters:

- The reply of the completion service is a `string` argument.
- The file content is a `string` argument.
- The external diff(1) run is a function parameter of type
  `(string, string) -> DiffRun`, giving an exit status and the text it
  printed. The predicate `ReportsIdentical` states diff's convention:
  status 0 exactly when the two inputs are equal.

Modules:

- `Wrappers` (`wrappers.dfy`): `Option` and `Result`.
- `Ruby` (`ruby.dfy`): the core-library behaviour listed above.
- `Cowrite` (`cowrite.dfy`): `without_quotes`, the reply parsing of `diff`,
  `generate_diff` and `files`.
- `CowriteCli` (`cli.dfy`): `remove_shell_colors`.

`diff` reads the first `LINES:` match of a reply and splices one section
into one file.

## Model

| member | source | states |
|---|---|---|
| Ruby.LeadingSpace | lib/cowrite.rb:70 | the count of characters `strip` cuts from the front: all of them are whitespace, and the next character is not |
| Ruby.TrailingSpace | lib/cowrite.rb:70 | the count of characters `strip` cuts from the back: all of them are whitespace, and the character before them is not |
| Ruby.Strip | lib/cowrite.rb:70 | the result has no whitespace at either end; it starts right after the leading whitespace of the input, and everything after it is whitespace |
| Ruby.LeadingSpaceOf | lib/cowrite.rb:70 | whitespace followed by text not starting with whitespace has exactly that much leading whitespace |
| Ruby.TrailingSpaceOf | lib/cowrite.rb:70 | text not ending with whitespace followed by whitespace has exactly that much trailing whitespace |
| Ruby.StripSurrounded | lib/cowrite.rb:70 | stripping text with no outer whitespace, wrapped in any whitespace, gives back exactly that text |
| Ruby.StripOfStripped | lib/cowrite.rb:70 | `strip` is the identity on text without whitespace at either end, so stripping twice is stripping once |
| Ruby.Chomp | lib/cowrite.rb:62 | the result is a prefix; what is removed is "", "\n", "\r" or "\r\n"; nothing is removed exactly when the text does not end in "\n" or "\r"; a lone "\n" is removed only when no "\r" precedes it |
| Ruby.ChompNewline | lib/cowrite.rb:62 | a text that does not end in "\r" gets back exactly itself after a "\n" is added and chomped |
| Ruby.Pieces | lib/cowrite.rb:79 | at least one piece, and no piece holds a "\n" |
| Ruby.SplitLines | lib/cowrite.rb:79-80 | no line holds a "\n", and there are no lines exactly for the empty text |
| Ruby.Join | lib/cowrite.rb:81 | the joined text is empty exactly for no lines or one empty line |
| Ruby.JoinSplitLines | lib/cowrite.rb:79-81 | splitting with the -1 limit and joining with "\n" gives back the text, trailing newlines included |
| Ruby.SplitLinesJoin | lib/cowrite.rb:79-81 | lines without "\n", other than the single empty line, come back unchanged from join followed by split |
| Ruby.SplitLinesNotSingleEmpty | lib/cowrite.rb:79 | no text splits into the single empty line |
| Ruby.JoinInjective | lib/cowrite.rb:81 | two line sequences without "\n" that join to the same text are equal, apart from `[]` and `[""]` |
| Ruby.DropTrailingEmpty | lib/cowrite.rb:33 | the result is a prefix, everything dropped is "", and the last line kept is not "" |
| Ruby.Split | lib/cowrite.rb:33 | plain `split("\n")` is the -1 split without its trailing empty lines, and its last line is not empty |
| Ruby.Integer | lib/cowrite.rb:63 | reading a digit run fails exactly when it has a leading "0", more digits, and an 8 or a 9 after the zero |
| Ruby.DecimalStringValue | lib/cowrite.rb:55 | the decimal numeral of n has value n and no leading zero |
| Ruby.IntegerOfDecimal | lib/cowrite.rb:63 | `Integer` reads the decimal numeral of every natural number back as that number |
| Ruby.OctalString | lib/cowrite.rb:63 | the octal numeral of n is a digit run using only the digits 0 to 7 |
| Ruby.OctalStringValue | lib/cowrite.rb:63 | the octal numeral of n has value n in base 8 |
| Ruby.ValueInLeadingZero | lib/cowrite.rb:63 | a leading zero does not change the value of a numeral in any base |
| Ruby.IntegerOfOctal | lib/cowrite.rb:63 | `Integer` reads "0" followed by the octal numeral of any natural number back as that number |
| Ruby.IntegerReadsOctal | lib/cowrite.rb:63 | the numbers of `LINES: 010-012` are read as 8 and 10 |
| Ruby.RangeAssign | lib/cowrite.rb:80 | raises exactly when a bound does not fit in a C `long` or the start is below -length; a range inside the array is replaced and the rest kept; an empty range inserts; a range running past the end, or ending at -1, replaces from the start to the end; a start past the end pads with nil |
| Ruby.RangeAssignCountsFromEnd | lib/cowrite.rb:80 | for an array of at most 2^63-1 elements, a negative start or end no smaller than -length acts as that index plus the length |
| Ruby.RangeAssignExamples | lib/cowrite.rb:80 | `[a,b,c][1..9] = [x]` gives `[a,x]`; `[a,b,c][-1..1] = [x]` gives `[a,b,x,c]`; `[a,b,c][0..2^63] = [x]` raises |
| Cowrite.FenceContent | lib/cowrite.rb:70 | a capture lies between opening and closing backticks, right before the closing ones; that it is exactly the fence's content is FenceContentIsFence |
| Cowrite.FenceContentIsFence | lib/cowrite.rb:70 | the fence pattern matches a text exactly when it is backticks, a tag without whitespace, "\n", content and closing backticks, and the capture is that content |
| Cowrite.FenceContentOfFence | lib/cowrite.rb:70 | every fenced block with a whitespace-free tag matches, and the capture is its content |
| Cowrite.FenceIsStripped | lib/cowrite.rb:70 | a fenced block has no whitespace at either end |
| Cowrite.WithoutQuotes | lib/cowrite.rb:69-71 | the result is the stripped reply or a piece of it right before closing backticks; WithoutQuotesUnwraps and WithoutQuotesKeepsUnfenced state exactly which |
| Cowrite.WithoutQuotesUnwraps | lib/cowrite.rb:69-71 | a fenced block with any whitespace around it is unwrapped to exactly its content |
| Cowrite.WithoutQuotesRemovesOneLayer | lib/cowrite.rb:69-71 | a fence inside a fence loses only the outer layer |
| Cowrite.WithoutQuotesKeepsUnfenced | lib/cowrite.rb:69-71 | a reply that is not one fenced block once stripped comes back only stripped |
| Cowrite.WithoutQuotesOfShortText | lib/cowrite.rb:69-71 | a stripped text shorter than three characters cannot hold a fence and comes back unchanged |
| Cowrite.DropLastLine | lib/cowrite.rb:61 | the result is a prefix that is empty or ends in "\n", and what is cut holds no "\n" |
| Cowrite.DropLastLineOf | lib/cowrite.rb:61 | text ending in "\n" followed by text without "\n" loses exactly the second part |
| Cowrite.LinesMatchAt | lib/cowrite.rb:60 | both captures are non-empty digit runs, and a match starts with "L" |
| Cowrite.LinesMatchAtIsMarker | lib/cowrite.rb:60 | a match at a position with captures (f, t) happens exactly when the text there starts with `LINES: f-t` with f, t digit runs and no digit right after t |
| Cowrite.FirstLinesMatch | lib/cowrite.rb:60 | a found match is a real match, and no position before it matches (leftmost match) |
| Cowrite.ParseEdit | lib/cowrite.rb:60-63 | missing marker exactly when no position matches; an integer error names a capture that `Integer` rejects, `from` when both are rejected; on success the range is read from the leftmost match and the section is the reply without its last line, unwrapped and chomped |
| Cowrite.MatchBeforeNewline | lib/cowrite.rb:60 | a LINES match holds no "\n", so a match starting before a line break is already a match of the text before the break |
| Cowrite.ReplyHeadHasNoMatch | lib/cowrite.rb:60 | when neither the tag nor the content holds a LINES match, none starts anywhere in the fenced block of a reply or the line break after it |
| Cowrite.ReplyFirstMatch | lib/cowrite.rb:60 | in a reply of the requested shape whose tag and content hold no LINES match (capital letters are allowed), the leftmost LINES match is the one on the last line, with the numbers written there |
| Cowrite.ReplyLastLine | lib/cowrite.rb:61 | dropping the last line of such a reply leaves the fenced block and its newline |
| Cowrite.ReplySection | lib/cowrite.rb:61-62 | unwrapping and chomping what is left gives back the fenced content |
| Cowrite.ParseEditOfReply | lib/cowrite.rb:60-63 | reading a reply of the requested shape gives back exactly the range and the content it was written from, for any tag without whitespace and any content that holds no LINES match and does not end in "\r" |
| Cowrite.ModifiedContent | lib/cowrite.rb:79-81 | fails, with RangeError, exactly for from = 0 on an empty file or when `from` - 1 or `to` - 1 does not fit in a C `long`; to = 0 replaces from `from` to the end of the file |
| Cowrite.ModifiedContentBoundTooLarge | lib/cowrite.rb:79-81 | `LINES: 1-9223372036854775809` raises RangeError |
| Cowrite.ModifiedContentSplices | lib/cowrite.rb:79-81 | for a range inside the file the new content is, joined again, the lines before the range, the replacement lines, then the lines after the range |
| Cowrite.SplicedLinesSplitBack | lib/cowrite.rb:79-81 | the spliced lines hold no "\n", so splitting the new content gives them back unless they are the single empty line |
| Cowrite.SpliceIsIdentity | lib/cowrite.rb:80 | replacing a slice of a sequence leaves the sequence unchanged exactly when the replacement equals that slice |
| Cowrite.ModifiedContentTruncates | lib/cowrite.rb:79-81 | a range whose end is at or past the last line replaces every line from `from` on, as for `LINES: 2-10` on a three-line file |
| Cowrite.ModifiedContentFromZero | lib/cowrite.rb:79-81 | `from` = 0 on a non-empty file starts at the last line: it is replaced when `to` = 0 or `to` reaches it, and the section is inserted before it otherwise |
| Cowrite.ModifiedContentWholeFile | lib/cowrite.rb:79-81 | `LINES: 1-0` replaces the whole file by the section |
| Cowrite.ModifiedContentDropsSecondLine | lib/cowrite.rb:79-81 | replacing lines 2..3 of any four-line file by a copy of its third line leaves the first, third and fourth lines |
| Cowrite.ModifiedContentExample | test/cowrite_test.rb:54-73 | replacing lines 2..3 of "a\nb\nc\nd" by "c" gives "a\nc\nd" |
| Cowrite.GenerateDiff | lib/cowrite.rb:84-90 | the diff text is returned exactly when the splice succeeds and diff exits 1; "No diff found" exactly on exit 0; "diff failed", carrying the tool's output, exactly on any other exit |
| Cowrite.NoDiffExactlyWhenUnchanged | lib/cowrite.rb:85-86 | with a tool that follows diff's convention, "No diff found" is raised exactly when the modified content equals the original |
| Cowrite.NoDiffExactlyWhenSameLines | lib/cowrite.rb:79-86 | for a range inside the file, "No diff found" is raised exactly when the replacement lines equal the lines of the range |
| Cowrite.NoDiffExample | test/cowrite_test.rb:78-81 | `("a", "a", 1, 1)` raises "No diff found", and that is the message |
| Cowrite.DiffFailedExample | test/cowrite_test.rb:83-88 | a tool exiting 127 makes `generate_diff` raise "diff failed" with the tool's output, and the message starts with "diff failed" |
| Cowrite.Diff | lib/cowrite.rb:60-63 | fails with a missing marker or a bad integer exactly when reading the reply fails; that it is `generate_diff` on what was read is DiffOfReply |
| Cowrite.DiffOfReply | lib/cowrite.rb:60-63 | `diff` on a reply of the requested shape (tag without whitespace, no LINES match in tag or content, content not ending in "\r") is `generate_diff` on exactly the range and content the reply was written from |
| Cowrite.DiffOfReplyNoDiff | lib/cowrite.rb:60-90 | for a reply of the requested shape (no LINES match in tag or content) with a range inside the file, "No diff found" is raised exactly when the fenced content repeats the lines of the range |
| Cowrite.Files | lib/cowrite.rb:33 | every name has no whitespace at either end |
| Cowrite.FilesAreStrippedLines | lib/cowrite.rb:33 | the names are the stripped lines of the unwrapped reply, in order, with only empty trailing lines left out |
| Cowrite.FilesOfOneName | test/cowrite_test.rb:24-26 | the reply "x" gives the names `["x"]` |
| CowriteCli.ParamRun | lib/cowrite/cli.rb:23 | the longest prefix made of digits and ";" |
| CowriteCli.ColorCodeAt | lib/cowrite/cli.rb:23 | a found length marks a whole colour code at the start of the text |
| CowriteCli.ColorCodeAtFinds | lib/cowrite/cli.rb:23 | every colour code at the start of the text is found with its exact length, so a match at a position is unique |
| CowriteCli.RemoveShellColors | lib/cowrite/cli.rb:22-24 | the output is never longer than the input, and text without an escape character comes back unchanged |
| CowriteCli.KeepsTextWithoutEsc | lib/cowrite/cli.rb:23 | characters other than ESC are kept in order, and the pass carries on after them |
| CowriteCli.RemovesCode | lib/cowrite/cli.rb:23 | a colour code is removed whole, and the pass resumes right after it |
| CowriteCli.KeepsLoneEsc | lib/cowrite/cli.rb:23 | an ESC that does not open a colour code is kept, and the pass moves on by one character |
| CowriteCli.UnchangedWithoutCode | lib/cowrite/cli.rb:23 | text in which no colour code occurs comes back unchanged |
| CowriteCli.ShrinksWithCode | lib/cowrite/cli.rb:23 | text in which a colour code occurs comes back strictly shorter |
| CowriteCli.UnchangedIffNoCode | lib/cowrite/cli.rb:23 | the text comes back unchanged exactly when no colour code occurs in it |
| CowriteCli.RemovesColoredLastLine | lib/cowrite/cli.rb:23 | the text "a\nb\n" ESC"[34mc" ESC"[0m" (the expected output of the `color_last_line` test) becomes "a\nb\nc" |
| CowriteCli.KeepsCodeWithoutDigits | lib/cowrite/cli.rb:23 | ESC "[m", with no digits, is not removed |

## Left out

- `send_to_openai` (lib/cowrite.rb:122-143): an HTTP request to a remote service. The reply is a parameter instead.
- The `git ls-files` call and `abort` in `files`, and `File.read` in `diff`: process and file I/O. The file content is a parameter.
- The prompts built in `files` and `diff`: text sent to the service, with no effect on the logic modelled here.
- The `Tempfile` handling, and diff(1) itself with its output format: the tool is a function parameter, and its output text is carried through unread.
- `CLI#run` (lib/cowrite/cli.rb:7-18): environment variables and printing.
- The `DEBUG` output, and the commented-out helpers in lib/cowrite.rb, which are dead code.
- `color_last_line`, `color_diff`, `modify_lines`, `prompt` and `expand_file_globs` of the command-line front end: they are not part of this model, because their source is not in lib/cowrite/cli.rb.
- The parallel mode and the applying of patches: they are not part of this model.
- Ruby.Integer: only digit runs are modelled, since the captures of `(\d+)` are always digit runs. Underscores, signs and prefixes such as "0x" cannot occur there.
- Cowrite.ModifiedContent: its own contract states the error cases (including bounds outside the C `long` range) and `to` = 0; the other edges (a range inside the file, past its end, `from` = 0 on a non-empty file) are stated by the lemmas ModifiedContentSplices, ModifiedContentTruncates and ModifiedContentFromZero.
- Cowrite.ModifiedContent: the `nil` padding that Ruby puts in past the end of the array becomes "" after `join`, so it is modelled as "" directly.
- Ruby.RangeAssign: for an end bound of exactly 2^63-1, C computes end + 1 in a `long`, which overflows; the model uses the mathematical value, and the lemmas about splices inside the file (ModifiedContentSplices, ModifiedContentTruncates, ModifiedContentFromZero, NoDiffExactlyWhenSameLines, DiffOfReplyNoDiff) require `to` to be at most 2^63-1.
- Ruby.RangeAssign: the ArgumentError and IndexError for arrays larger than the platform's maximum array size are not modelled, because integers are unbounded here.
- Cowrite.GenerateDiff: a diff process killed by a signal has no exit status (`nil`). It is modelled as any status other than 0 and 1, which takes the same "diff failed" path.
- Cowrite.Error.Message: the messages of the errors that Ruby raises itself (NoMethodError, ArgumentError, RangeError) are given in short form, not in Ruby's exact wording.
