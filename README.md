# extract-summary-files, modelled in Dafny

`code/extract-summary-files.py` splits the text on standard input into
files. It reads the input line by line. A line whose whitespace-stripped
form starts with `===== <name> =====` is a header. The name is one or more
of `a`-`z`, `A`-`Z`, `0`-`9`, `.` and `_`, and anything may follow the
closing `=====`. A header closes the section that is open and starts a new
one named `<name>`. Every other line is kept unchanged, with its own
whitespace and any newline, in the lines gathered for the open section. Each
section is written to the file named by its header, which is opened for
writing and so truncated.

The model has five modules, one file each:

- `wrappers.dfy`: `Wrappers`, holding `Option`.
- `header.dfy`: `Header`, header recognition. `Strip` stands for
  `str.strip()` and `MatchPattern` for the compiled pattern's `match`. The
  pattern's `match` is anchored at the start only. `MatchHeader` applies the
  pattern to the stripped line.
- `sections.dfy`: `Sections`, the splitting as a pure function. `Split` maps
  the input lines to the ordered sequence of writes (`Write(name, lines)`) that
  the main loop performs. Its lemmas say what that sequence is. It takes the
  header recognizer as a parameter (`Recognizer`), so its lemmas hold for any
  recognizer. The program uses `MatchHeader`.
- `output.dfy`: `Output`. The file system is a map from file name to
  content, held by the class `FileStore`. `FileStore.WriteToFile` is the
  write loop of `write_to_file`. A ghost field `written` records every call
  of it, in order. `ApplyWrites` gives the files after a sequence of writes.
- `extract.dfy`: `Extract`. `SplitToFiles` is the main loop written as a
  `while` loop over `current`, `pending` (the source's `current_lines`) and a
  log of the writes it performs. It is proved to call `WriteToFile` exactly
  for the writes of `Split`, in order, and to leave the store as those writes
  do. `ExtractSummaryFiles`
  runs it with `MatchHeader`. The lemmas here relate whole runs to the final
  files.

## Model

| member | source | states |
|---|---|---|
| `Header.IsSpace` | code/extract-summary-files.py:16 | the characters `str.strip()` removes, limited to ASCII: space, tab, line feed, vertical tab, form feed, carriage return and U+001C to U+001F |
| `Header.LeadingSpace` | code/extract-summary-files.py:16 | the whitespace run at the start of a line is all whitespace, and the character after it (if any) is not |
| `Header.TrailingSpace` | code/extract-summary-files.py:16 | the whitespace run at the end of a line is all whitespace, and the character before it (if any) is not |
| `Header.LeadingSpaceAt` | code/extract-summary-files.py:16 | the leading run ends exactly at the first character that is not whitespace |
| `Header.TrailingSpaceAt` | code/extract-summary-files.py:16 | the trailing run starts exactly after the last character that is not whitespace |
| `Header.Strip` | code/extract-summary-files.py:16 | the stripped line is a contiguous part of the line; only whitespace is cut on either side, and the result neither starts nor ends with whitespace |
| `Header.StripUnique` | code/extract-summary-files.py:16 | stripping is fully determined: for any line that is whitespace, then `r`, then whitespace, with `r` empty or free of whitespace at both ends, the stripped line is `r` |
| `Header.StripIgnoresSurroundingSpace` | code/extract-summary-files.py:16 | adding whitespace before or after a line does not change its stripped form |
| `Header.MatchIgnoresSurroundingSpace` | code/extract-summary-files.py:16 | adding whitespace before or after a line changes neither whether it is a header nor the name captured |
| `Header.IsNameChar` | code/extract-summary-files.py:13 | the character class `[a-zA-Z0-9._]` |
| `Header.IsName` | code/extract-summary-files.py:13 | a capture of `([a-zA-Z0-9._]+)`: one or more characters of the class |
| `Header.HeaderShape` | code/extract-summary-files.py:13 | the pattern stated declaratively: the text begins with `===== `, the name, then ` =====`, and the name is valid; anything may follow |
| `Header.NameRun` | code/extract-summary-files.py:13 | the greedy `[a-zA-Z0-9._]+` run: every character counted is a name character, and the next one is not |
| `Header.MatchPattern` | code/extract-summary-files.py:13 | a match returns a name with the header shape: non-empty name characters between `===== ` and ` =====` at the start of the text |
| `Header.MatchPatternIff` | code/extract-summary-files.py:13 | the pattern matches with name `n` if and only if the text begins with `===== n =====` and `n` is a non-empty run of name characters; text after it does not matter, and the captured name is unique |
| `Header.MatchHeader` | code/extract-summary-files.py:16 | a line counts as a header only if its stripped form has the header shape for the captured name |
| `Header.MatchHeaderIff` | code/extract-summary-files.py:13-16 | a line is a header naming `n` exactly when its stripped form begins with `===== n =====` and `n` is a valid name |
| `Sections.HeaderNames` | code/extract-summary-files.py:16-22 | the header names in input order, no more of them than there are lines |
| `Sections.Body` | code/extract-summary-files.py:23-24 | the non-header lines in input order; none of them is a header |
| `Sections.SplitFrom` | code/extract-summary-files.py:15-27 | from any loop state, one write per remaining header, plus one for the section already open |
| `Sections.Split` | code/extract-summary-files.py:10-27 | the loop run from its initial state (no open file, no pending lines): one write per header line |
| `Sections.SplitFromNames` | code/extract-summary-files.py:17-27 | from any loop state, the names written are the open section's name followed by the remaining header names, in order |
| `Sections.SplitNames` | code/extract-summary-files.py:17-27 | the written names are exactly the header names in input order, so there are as many writes as header lines, empty sections included |
| `Sections.SplitWithoutHeaders` | code/extract-summary-files.py:18-27 | input without a header line produces no write |
| `Sections.SplitFromFlatten` | code/extract-summary-files.py:15-27 | from a state with a section open, or with a header still to come, the written lines in order are the pending lines followed by the remaining non-header lines |
| `Sections.SplitLosesNothing` | code/extract-summary-files.py:15-27 | once there is a header, all written contents joined in write order equal the input with the header lines removed: nothing lost, nothing written twice |
| `Sections.SplitFromKeepsNoHeader` | code/extract-summary-files.py:16-24 | from a state whose pending lines hold no header, no written content holds a header line |
| `Sections.SplitWritesNoHeader` | code/extract-summary-files.py:16-24 | a header line never appears in any written content |
| `Sections.SplitFromGathers` | code/extract-summary-files.py:23-24 | lines without a header only extend the pending lines |
| `Sections.SplitFromPending` | code/extract-summary-files.py:17-24 | with a section open, the pending lines become the leading lines of that section's write |
| `Sections.SplitSection` | code/extract-summary-files.py:22-27 | a header followed by non-header lines is one write holding exactly those lines |
| `Sections.SplitSectionThen` | code/extract-summary-files.py:17-27 | a section followed by input that is empty or starts with a header is written first and on its own |
| `Sections.SplitPreamble` | code/extract-summary-files.py:10-24 | lines before the first header are not dropped: they lead the first file, and the writes are otherwise those of the input without them |
| `Sections.SplitFromAppend` | code/extract-summary-files.py:17-22 | from a state with a section open, or a header still to come in `xs`, a header after `xs` closes the last section of `xs` |
| `Sections.SplitAppend` | code/extract-summary-files.py:18-22 | after a flush the pending lines are reset: when `xs` has a header and `ys` starts with one, the writes of `xs + ys` are those of `xs` followed by those of `ys` |
| `Output.ApplyWritesSnoc` | code/extract-summary-files.py:4-7 | one more write replaces that file's content with the written lines joined |
| `Output.ApplyWritesFrame` | code/extract-summary-files.py:4-7 | after a sequence of writes, the files are the old ones plus the names written, and every file not written keeps its content |
| `Output.LastWriteWins` | code/extract-summary-files.py:5 | opening with `'w'` truncates, so a file holds what its last write gave it, whatever earlier writes to the same name held |
| `Output.Concat` | code/extract-summary-files.py:6-7 | the content a file receives: its lines written one after another, with nothing added |
| `Output.ApplyWrites` | code/extract-summary-files.py:4-7 | the files after a sequence of writes, each replacing the whole file; no file disappears (the exact set of files and the untouched contents are `ApplyWritesFrame`) |
| `Output.FileStore.WriteToFile` | code/extract-summary-files.py:4-7 | the named file now holds the lines joined in order, no other file changes, and the call is recorded as the last write |
| `Output.FileStore.constructor` | code/extract-summary-files.py:4-7 | the file system the program writes to starts with the given files and no write recorded |
| `Extract.SplitToFiles` | code/extract-summary-files.py:15-27 | the writes recorded on the store during the loop are exactly those of `Split`, in order, and are returned as `log`; the store ends as applying them in order leaves it; input without a header writes nothing and leaves every file as it was |
| `Extract.ExtractSummaryFiles` | code/extract-summary-files.py:9-27 | the program with the header pattern: the writes recorded on the store are `Split(MatchHeader, input)`, the store ends as they leave it, and input without a header changes nothing |
| `Extract.ExtractedNames` | code/extract-summary-files.py:17-27 | the files after a run are the old files plus exactly the header names; other files are untouched; without a header nothing changes |
| `Extract.LastSectionWins` | code/extract-summary-files.py:5-27 | a repeated name ends up with the content of its last section, led by the preamble when that section is the first one |
| `Extract.HeaderNamesAreNames` | code/extract-summary-files.py:13-22 | every header name is a non-empty run of name characters |
| `Extract.WrittenNamesAreNames` | code/extract-summary-files.py:22 | every file written is named by a non-empty run of name characters |

## Left out

- Reading standard input and the real `open`/`write` calls (lines 4-7 and 15). The input is a `seq<string>` of lines as Python yields them: each ends with its newline, except a last line that has none in the input. The file system is a map from file name to content.
- The `re` library (lines 1 and 13). It is replaced by `MatchPattern`, written character by character.
- Non-ASCII whitespace. `str.strip()` also removes Unicode whitespace such as U+0085 and U+00A0; `Strip` removes only the ASCII characters that Python counts as whitespace: space, tab, line feed, vertical tab, form feed, carriage return and U+001C to U+001F.
- File-system effects. Invalid or colliding paths, names such as `.` or `..`, permissions, I/O errors and partly written files are not modelled. Every write succeeds and replaces the whole file.
- The journey simulation (its actors, the company's random choices, the customer state machine and the aggregation of outcomes). Its source is not part of this model. Only the splitting script is.
