# mo — a Dafny model of its search-and-replace core

`mo` searches files, folders or the standard input for a regular
expression. It prints the matching lines with colour and optional context
before and after, or only the matched text, or only the file names. It
can also rewrite files with a replacement template that may refer to
capture groups. This project models that core in Dafny and proves what
the code promises about it:

- **The line index** (`src/file.rs`). A file's bytes are cut into line
  spans at `0x0a`. The cut is lossless and numbered from 1. Every line is
  searched, with match offsets relative to the line.
- **The renderers** (`src/line.rs`, `src/file.rs`). These are
  `replace_with`, `only_matches` and `replace_and_write`, which produce
  bytes. They also include `print_colored` and `print_colored_match`,
  which produce a sequence of output segments. The preview that
  `print_colored` shows agrees with the rewrite that `replace_with`
  performs.
- **The context window of `process_file`** (`src/lib.rs:64-95`). This is
  a state machine over a lagging cursor, a `delay` counter and an
  `output_count`. It renders ascending, duplicate-free lines around every
  match, with `...` between blocks on a console.
- **Gating.** `process_file` decides what is printed and written; the
  file is rewritten only when a match is found (or, with inversion, not
  found), a replacement is set and `simulate_replace` is off.
  `process_folder` dispatches over the scanned paths.
  `process_stdin` applies its per-line streaming policy.
- **Pattern construction** (`src/search.rs`). The pattern is optionally
  wrapped in `\b…\b`.
- **Path filters of the folder scanner** (`src/folder.rs`). These are the
  binary-extension set, the extension allow-list, the include and exclude
  expressions, the per-mode decision whether to keep an entry, and the
  construction of the scanner.
- **The small argument parser** (`src/cli.rs`) and its help text.
- **The legacy line searcher** (`src/pattern.rs`).

The regular-expression library is an oracle. The model's `Regex` is a
value of three functions: match iteration, capture extraction and a match
test. Its subset-type constraint guarantees the only facts the core
relies on: spans are ascending, non-overlapping and within the slice,
captures are optional, and the match test agrees with the iteration.
Output to the terminal becomes a sequence of `Segment`s. Files the core
reads become a function from path to read result. A file the core writes
becomes a `Written` record in the outcome. Terminal detection and UTF-8
validity become parameters.

`lib.rs` calls `search_for2`, `print_colored2` and `replace_with2`; the
model takes them to be `line.rs`'s `search_for`, `print_colored` and
`replace_with`.

With a replacement and redirected stdout every input line is kept
(`src/lib.rs:139-151`); without a replacement only found lines are
printed, as on a terminal.

Two more behaviours are kept as the code has them:

- Lines still in the context backlog when the loop ends are never
  rendered. For example, a match on the last line is not printed while
  `delay > 0`; `Context.TrailingMatchExample` shows this.
- The streaming loop's `buffer_replaced` is reused without harm, because
  `replace_with` and `only_matches` clear it first.

## Model

| member | source | states |
|---|---|---|
| Search.CreateRegex | src/search.rs:4-16 | Without word boundaries the expression is compiled from the pattern unchanged; with them, from `\b` + pattern + `\b`. The result is exactly the compiled expression, and a compilation failure is an `Err`, never a panic. |
| Search.WrappedPatternInError | src/search.rs:6-11 | A compilation failure's message quotes the wrapped pattern, anchors included. |
| Lines.Line.constructor | src/line.rs:16-22 | Keeps `nr`, has range `start..start+size` and no matches. |
| Lines.Line.AsSlice | src/line.rs:24-26 | The slice has length `size` and is byte for byte `content[range]`. |
| Lines.Line.SearchFor | src/line.rs:28-36 | The previous matches are replaced by exactly the iterator's spans on the line slice, in order and line-relative, so repeating the search gives the same list. The result is true iff the list is non-empty. |
| Lines.Line.ReplaceWith | src/line.rs:86-102 | The output is the line rebuilt from unchanged gaps and expanded matches; with no matches it equals the line. |
| Lines.Line.OnlyMatches | src/line.rs:104-109 | The output is the in-order concatenation of the matched spans; it is empty without matches. |
| Lines.Line.ColoredPass | src/line.rs:39-67 | One pass of `print_colored`: the line number, then per match its gap and either the highlighted match or the template's segments, then the trailing text unless a template with a prefix is used. |
| Lines.Line.PrintColored | src/line.rs:38-73 | Emits the plain pass and then, only when a replacement exists, the templated pass. The plain pass needs no capture. |
| Lines.Line.PrintColoredMatch | src/line.rs:75-84 | Emits the valid-UTF-8 matches highlighted, in order, then a newline. |
| Lines.ExtendWithExpansion | src/line.rs:93-98 | Appends a match's template expansion: for each part, the group's bytes when its index is >= 0, then the literal. |
| Lines.ExtendWithTemplate | src/line.rs:50-55 | Appends the template's output segments for one match. |
| Lines.RenderMatch | src/line.rs:43-59 | One match's gap and rendering: the highlighted match, or the template's segments when a replacement exists. Nothing is emitted when the gap or the match is not valid UTF-8. |
| Lines.Decompose | src/line.rs:89-101 | The gaps interleaved with the matched spans reproduce the line from the offset on. |
| Lines.ReplacedIsInterleave | src/line.rs:89-101 | The replaced line is the gaps interleaved with each match's expansion. |
| Lines.ReplaceIdentity | src/line.rs:86-102 | A template that expands every match to itself leaves the line unchanged. |
| Lines.GapsAndMatchesCoverLine | src/line.rs:89-101 | Gaps and matches together have exactly the line's length. |
| Lines.TemplateText | src/line.rs:50-55 | The text of the template's segments equals the expansion that `replace_with` writes. |
| Lines.HighlightLossless | src/line.rs:41-66 | When every gap and match is valid UTF-8, the plain pass can always be rendered and its text is the line from the offset on. |
| Lines.PreviewMatchesTransform | src/line.rs:48-66 | The templated pass shows exactly the text `replace_with` produces. With a capture prefix, it shows that text with the trailing part omitted. |
| Lines.MatchSegmentsText | src/line.rs:75-84 | The text of `print_colored_match` is the `only_matches` output plus a newline. |
| Files.Position | src/file.rs:59 | `iter().position`: the first index holding the byte, or none when the byte is absent. |
| Files.LineSize | src/file.rs:59-62 | The size of the next line is positive and within the rest. It ends at the first `0x0a`, or at the end of the rest when no `0x0a` occurs. |
| Files.NextLineSize | src/file.rs:59-62 | The size computed in the loop ends the line where `LineEnd` says. |
| Files.LineEndFacts | src/file.rs:59-62 | A line holds no `0x0a` before its last byte, and every line but the last ends in `0x0a`. |
| Files.Spans | src/file.rs:52-68 | The line spans tile the content: the first starts at 0, each starts where the previous ended, and all are non-empty and in bounds. Empty content gives no lines. |
| Files.SpansDelimited | src/file.rs:59-62 | Every line except possibly the last ends in `0x0a`, and no line holds another `0x0a`. |
| Files.SpansLossless | src/file.rs:52-68 | Concatenating the line slices reproduces the content. |
| Files.WrittenLineIsReplaced | src/file.rs:96-120 | When captures are available, the bytes written for a line are the `replace_with` transform of that line. |
| Files.WrittenLineFails | src/file.rs:101-106 | Writing a line fails iff the template names a group and some match has no captures. |
| Files.WrittenFileIsReplaced | src/file.rs:94-121 | When captures are available, the rewritten file is every line's transform, in order. |
| Files.UnmatchedFileWritten | src/file.rs:94-121 | Lines without matches from a given offset on are written byte for byte. |
| Files.UnmatchedFileUnchanged | src/file.rs:94-121 | A file in which no line matches is rewritten unchanged. |
| Files.WriteExpansion | src/file.rs:101-116 | A template that names a group fails on a match without captures. Otherwise the expansion is written. |
| Files.WriteMatch | src/file.rs:97-119 | Writes one gap and one match, or stops with the error the whole line write fails with. |
| Files.WriteLine | src/file.rs:95-120 | The loop over one line's matches writes exactly that line's `WrittenLine` result. |
| Files.Data.constructor | src/file.rs:18-31 | Keeps search, inversion and replacement; path and content are empty and there are no lines. |
| Files.Data.Load | src/file.rs:33-50 | Sets the path. On a failed open nothing else changes. On success the content is the file and `lines` is cleared. |
| Files.Data.SplitInLines | src/file.rs:52-69 | Appends, without resetting, one fresh line per span, numbered from 1. Earlier lines are kept. |
| Files.Data.CutLine | src/file.rs:57-66 | One loop iteration cuts the next line at the first `0x0a`, pushes a fresh line for it and continues after it. |
| Files.Data.AddLine | src/file.rs:64 | Pushes one fresh line with the given number and range. |
| Files.Data.SearchLine | src/file.rs:78-80 | Searches one line and leaves every other line's matches unchanged. |
| Files.Data.SearchForMatches | src/file.rs:71-84 | With no search, returns false and changes no line. Otherwise every line is searched (the call is never short-circuited), and the result is true iff some line has matches. |
| Files.Data.ReplaceAndWrite | src/file.rs:86-125 | Produces exactly the `FileWritten` bytes, or the capture error. |
| Context.RunInvariant | src/lib.rs:67-95 | After each line, `0 <= delay <= output_before` and the lagging cursor has consumed exactly the lines processed minus `delay`. A live counter was set by the last marked line to `delay + output_after + 1`, minus the lines since, and follows a rendered line. |
| Context.LaggedLineExists | src/lib.rs:67-93 | The lagging cursor is always behind the driving loop, so `next().unwrap()` never fails. |
| Context.RunCases | src/lib.rs:71-95 | The five cases of one step. A marked line re-arms the counter to `delay + output_after + 1`, and in the same step renders the lagged line and decrements the counter. An unmarked line with the counter above 0 renders the lagged line and decrements. With the counter at 0 it consumes a line, emits the gap and disarms. Unarmed, `delay` grows up to `output_before`, and past it a lagged line is skipped. The cursor never passes the driving loop. |
| Context.RunStep | src/lib.rs:71-95 | The trace after `i+1` lines is one step after the trace of `i` lines. |
| Context.StepShown | src/lib.rs:76-94 | A step renders no line, or the cursor's line, which it then consumes. |
| Context.ShownAscending | src/lib.rs:67-95 | Rendered lines strictly ascend, with no duplicates, and all lie before the cursor. |
| Context.ShownNearMark | src/lib.rs:72-83 | Every rendered line lies within `output_before` lines before, or `output_after` lines after, a marked line. |
| Context.RunPrefix | src/lib.rs:71-95 | Processing more lines only appends to what was rendered. |
| Context.BlockStep | src/lib.rs:72-83 | During the `j`-th line after a match, the window renders the next lagged line. |
| Context.BlockRendered | src/lib.rs:72-83 | A match renders the `delay` lines before it, itself and `output_after` lines after it, as far as the file reaches before the loop ends. |
| Context.GapFollowsShow | src/lib.rs:84-89 | A gap is only emitted right after a rendered line. |
| Context.MiddleMatchExample | src/lib.rs:67-95 | One line of context around a match in the middle renders three lines. |
| Context.TrailingMatchExample | src/lib.rs:67-95 | A match on the last line while `delay > 0` is left in the backlog and not rendered. |
| Context.SeparatedBlocksExample | src/lib.rs:84-89 | Two separated matches without context are split by a gap. |
| Lib.FileViews | src/lib.rs:51-52 | Splitting then searching gives in-bounds lines. |
| Lib.SearchedViewsAt | src/file.rs:78-80 | The k-th searched line is numbered `nr+k`, keeps its span and holds exactly the iterator's matches. |
| Lib.Marks | src/lib.rs:72 | A line is marked iff it has matches. |
| Lib.IndexLines | src/lib.rs:51-52 | After `split_in_lines` and `search_for_matches`, the lines are the file's searched lines, and the result is true iff some line has matches. |
| Lib.RenderLine | src/lib.rs:79-82 | One rendered line: `path:` when not on a console, then `print_colored` of the line slice. |
| Lib.Advance | src/lib.rs:71-94 | One iteration's bookkeeping moves the context machine by exactly one step. The lagged line is shown iff the line is marked or the counter is above 0. The only other output is the gap. |
| Lib.OutputEvent | src/lib.rs:76-89 | The armed branch prints the lagged line, or `...` on a console when the block closes. The output gains exactly that event's segments. |
| Lib.ContextAdvance | src/lib.rs:76-83 | Whenever the counter is above 0, the lagged line exists and is renderable. |
| Lib.RenderContext | src/lib.rs:64-95 | The loop prints exactly the context machine's events for the marked lines, in order. |
| Lib.PrintFound | src/lib.rs:53-99 | Prints the path (NUL- or newline-terminated) in Filenames mode. Otherwise it prints the header on a console, the context window, and a final newline on a console. |
| Lib.OutputFound | src/lib.rs:53-108 | Prints as `PrintFound`, then rewrites the file only when a replacement is set and not simulated. |
| Lib.SearchLoaded | src/lib.rs:50-106 | After loading, the lines are the content's searched lines, and the outcome is the file's `FileOutcome`. |
| Lib.OutputIfFound | src/lib.rs:52-106 | The found file's output is produced iff found XOR invert. Otherwise nothing is printed or written. |
| Lib.ProcessFile | src/lib.rs:38-111 | Folders mode returns before loading. An unreadable file gives only a verbosity-gated warning. Nothing is printed unless found XOR inverted. The outcome is exactly `FileOutcome`. |
| Lib.RewriteConditions | src/lib.rs:101-105 | The file is written iff found XOR invert, a replacement is set and `simulate_replace` is off, and then with exactly the `replace_and_write` bytes. A failing write is the result. |
| Lib.RewrittenIsReplaced | src/lib.rs:101-105 | With captures available, a rewritten file holds every line's `replace_with` transform. |
| Lib.InvertedUnmatchedRewrittenVerbatim | src/lib.rs:52-105 | With inversion and no line matching, the file is still rewritten, byte for byte unchanged. |
| Lib.FoundGatesOutput | src/lib.rs:52-59 | Nothing is printed or written unless found XOR invert; in Filenames mode only the path is printed. |
| Lib.FailureStops | src/lib.rs:22-24 | The first failing file ends folder processing with its error. |
| Lib.WrittenPathsScanned | src/lib.rs:22-24 | Only scanned paths are ever written. |
| Lib.ProcessFiles | src/lib.rs:21-24 | The files are processed in order, and their outputs and writes are joined. The first failing file ends the loop with its error. |
| Lib.ProcessNext | src/lib.rs:22-23 | One more file's outcome is joined to those before it. |
| Lib.ListPaths | src/lib.rs:26-32 | Each path is listed, terminated by NUL or a newline, in order. |
| Lib.ProcessFolder | src/lib.rs:16-36 | A failed scan is the error. Files are processed in order only when a search is configured; otherwise the paths are listed, terminated by NUL or newline. |
| Lib.ReadLine | src/lib.rs:128-131 | `read_until(0x0a)`: yields the next line up to and including `0x0a`, and 0 at the end. |
| Lib.StdinEmit | src/lib.rs:133-163 | With a replacement and redirected stdout, a found line is written as its `only_matches` or `replace_with` output and any other line byte for byte. Otherwise only found lines are printed. |
| Lib.ProcessStdin | src/lib.rs:113-168 | Without a search nothing happens. Otherwise each line, numbered from 1 with the buffer cleared after it, is emitted per `StdinEmit`, in input order. |
| Lib.RedirectedForwardsEveryLine | src/lib.rs:139-151 | With a replacement and redirected stdout, the output is every line's forwarded bytes, in order. |
| Lib.UnmatchedInputPassesThrough | src/lib.rs:149-151 | Without inversion, lines that do not match are forwarded as themselves. |
| Lib.UnmatchedStdinUnchanged | src/lib.rs:139-151 | Input in which no line matches passes through the redirected stream byte for byte. |
| Folder.AllBinaryExtensions | src/folder.rs:164-173 | The set holds exactly the 19 listed extensions. |
| Folder.CompileAllOk | src/folder.rs:31-48 | Compiling a pattern list succeeds iff every pattern compiles. It then holds one expression per pattern, in order. |
| Folder.CompileAllErr | src/folder.rs:31-48 | A failed compilation names the first pattern that does not compile. |
| Folder.CompilePatterns | src/folder.rs:31-39 | The pattern loop pushes each compiled expression and stops at the first invalid pattern, as `CompileAll` says. |
| Folder.NewScanner | src/folder.rs:20-50 | Include patterns, then exclude patterns, are compiled case-insensitively unless the search is case sensitive. The first invalid pattern is the error. Otherwise both vectors are in pattern order and the binary set is complete. |
| Folder.AnyAllowed | src/folder.rs:122-124 | True iff some allow-list entry equals `ext` or `"." + ext`. |
| Folder.ExtensionOk | src/folder.rs:111-134 | A binary extension is rejected unless binary files are searched, even when allowed. With a non-empty allow-list, an extension is accepted iff listed as `ext` or `.ext`. A path without extension is accepted iff the list is empty. |
| Folder.AllMatch | src/folder.rs:144-147 | True iff every include expression matches. |
| Folder.AnyMatch | src/folder.rs:151-154 | True iff some exclude expression matches. |
| Folder.NameOk | src/folder.rs:135-161 | A UTF-8 path is accepted iff every include matches and no exclude matches. A non-UTF-8 path is always accepted. |
| Folder.DoAddPath | src/folder.rs:84-100 | In Folders mode, an entry is kept iff it is a directory passing the name filter, with no extension check. In every other mode it must be a file passing both filters. |
| Folder.Scan | src/folder.rs:52-109 | Collects the kept paths in walk order. Walk errors are skipped, and an entry without a file type fails the scan. |
| Folder.ScanFailsIffNoFileType | src/folder.rs:70-81 | The scan fails iff some walked entry has no file type. |
| Folder.CollectedPathsPass | src/folder.rs:84-104 | Every collected path comes from an entry that passes `DoAddPath`. |
| Folder.PassingEntriesCollected | src/folder.rs:102-104 | Every entry that passes `DoAddPath` is collected when the scan succeeds. |
| Folder.FoldersIgnoreExtensions | src/folder.rs:97-99 | In Folders mode a directory with a rejected extension is still kept, and a file is not. |
| Cli.Operate | src/cli.rs:55-64 | `--help` sets `print_help`. `--input` takes the next argument or fails with "Expected input filename". No operation consumes more than it should. |
| Cli.MatchOptions | src/cli.rs:32-37 | Matching one argument against the options never grows the remaining arguments. |
| Cli.MatchErrorPersists | src/cli.rs:35 | A failing option ends the inner loop with its error. |
| Cli.Options.constructor | src/cli.rs:18-23 | `print_help` is false and `input_filename` is empty. |
| Cli.Options.Invoke | src/cli.rs:55-64 | Runs one option's operation on the fields and remaining arguments. |
| Cli.Options.Parse | src/cli.rs:25-40 | The parse loop terminates; its result and final fields are those of `Parsed`. |
| Cli.ParseHelp | src/cli.rs:55 | `-h` or `--help` sets `print_help` and consumes nothing else. |
| Cli.ParseInput | src/cli.rs:56-63 | `-i X` or `--input X` sets `input_filename` to X and consumes X. |
| Cli.ParseMissingInput | src/cli.rs:56-58 | `-i` or `--input` as the last argument aborts with "Expected input filename". |
| Cli.ParseUnknown | src/cli.rs:28-37 | An argument naming no option is consumed and ignored. |
| Cli.ParseFailsOnlyOnTrailingInput | src/cli.rs:28-64 | Parsing fails only with the missing-filename error, and only when the last argument is `-i` or `--input`. |
| Cli.HelpStaysSet | src/cli.rs:55 | Once set, `print_help` stays set through the rest of the parse. |
| Cli.InputFromArguments | src/cli.rs:60 | The final `input_filename` is the initial one or one of the arguments. |
| Cli.AppendHelpLines | src/cli.rs:45-48 | Pushes each option's help line and a newline, in order. |
| Cli.Options.Help | src/cli.rs:42-51 | The header line, then one help line per option in order, then the footer line. |
| Cli.HelpLinePerOption | src/cli.rs:42-51 | When no option text spans lines, the help text has exactly one line per option plus header and footer. |
| Cli.HelpLineOfHelp | src/cli.rs:53-84 | The help line of `--help` is `\t-h\t--help\tPrint this help`. |
| Cli.HelpLineOfInput | src/cli.rs:53-84 | The help line of `--input` is `\t-i\t--input\tInput filename`. |
| Cli.HelpText | src/cli.rs:53-84 | The option lines are `\t-h\t--help\tPrint this help` and `\t-i\t--input\tInput filename`. |
| Pattern.ReadCount | src/pattern.rs:47-53 | Counts the reads before the first failed or empty read. |
| Pattern.Searcher.constructor | src/pattern.rs:25-31 | No matches and an empty line buffer. |
| Pattern.Searcher.ReadLine | src/pattern.rs:47-53 | Clears the buffer first. The result is true iff a non-empty line was read; a read error counts as false. |
| Pattern.Searcher.Search | src/pattern.rs:33-45 | Clears the previous matches. Then every line read, numbered from 1, is recorded iff the expression matches it. The result is true iff something was recorded. |
| Pattern.RecordedAscending | src/pattern.rs:34-42 | Recorded line numbers lie between 1 and the number of lines read and strictly increase. |
| Pattern.RecordedIffMatch | src/pattern.rs:37-39 | A line is recorded, with its number and text, iff the expression matches it. |
| Pattern.FoundIffSomeLineMatches | src/pattern.rs:44 | The search reports a find iff some line read matches. |
| Pattern.ReadErrorEndsSearch | src/pattern.rs:49-51 | A read error ends the search exactly like the end of the input. |

## Left out

- The regular-expression library (`find_iter`, `captures`, `is_match`,
  `Regex::new`, `RegexBuilder`): a foreign library. It is an oracle whose
  only guaranteed facts are those its subset type states.
- `Search::new` and `Replace::new`, the template compiler, are not part
  of this model. A compiled `Replace` (its parts and capture prefix) is
  taken as input. `process_stdin`'s `Search::new(..).unwrap()` is
  replaced by a given expression.
- File I/O: opening, metadata, `read_to_end` and its size assertion, and
  `File::create`/`write`. A file read is a parameter.
  `replace_and_write` is modelled as the bytes it writes or the error it
  returns.
- Files.Data.Load: a failure is modelled as a failed open or `metadata`
  call (src/file.rs:39-40), which leaves `content` and `lines` alone. A
  failed `read_to_end` (src/file.rs:44) comes after `content.clear()`, so
  it leaves `content` empty or partly read while `lines` still indexes the
  previous file; that case is not modelled. `process_file` returns right
  after any failed load (src/lib.rs:45-48), so nothing reads `content`
  afterwards.
- Files.Data.ReplaceAndWrite: the real file is truncated before a capture
  error can occur, and a failed `write` is an error; neither is modelled.
  Each `write` (src/file.rs:98, 107, 115, 120) discards its count, so a
  short write would silently drop bytes. The model always writes the
  whole buffer.
- Lib.ProcessFolder: files are a function from path to content, so a file
  written while processing a folder is not re-read if its path occurs
  again.
- Directory walking by the `ignore` crate's `WalkBuilder`, including
  hidden and ignored files. The scan takes the walk's entries as input,
  and only the per-entry decision and the collection are modelled.
- Folder.Scan: the verbosity-gated warning for a walk error is not
  modelled.
- Folder.NameOk: the warning printed for a non-UTF-8 path is not
  modelled.
- Colour styling by the `colored` crate becomes segment tags. Terminal
  detection by `atty` and `console_output` become boolean parameters.
  `from_utf8` checks are an abstract validity predicate.
- Panics are preconditions rather than modelled failures:
  - the `unwrap` on absent captures or groups in `print_colored` and
    `replace_with`;
  - the missing replacement in `replace_and_write`;
  - the `search_opt` unwrap in `process_file`.
- Lib.ProcessStdin: the standard input is modelled as the bytes of the
  complete `read_until` calls before its end or a read error. A read error
  ends the loop (src/lib.rs:128) and drops whatever partial line
  `read_until` had already put into `buffer`, so that partial line is not
  part of `input`. Errors writing to stdout (the `?` at src/lib.rs:148 and
  150) are not modelled. Those `write` calls also discard their count, so a
  short write would drop bytes; the model always writes the whole buffer.
- Lib.ProcessFile: the skip warning is an output segment, but the
  debug `println!`s elsewhere are left out.
- Cli.Options.Parse: the debug `println!`s on every argument and match
  are not modelled.
- Lines.Line.constructor: line numbers are unbounded, so the `u64`
  width is not modelled.
- Pattern.Searcher.Search: line numbers are unbounded, so the `u32`
  wrap-around is not modelled.
- Pattern.Searcher.ReadLine: a failed read is taken to leave the line
  buffer empty, and invalid UTF-8 counts as a failed read.
- `src/bin/mo.rs` and `src/main.rs` are process entry points
  (environment, spawning an editor, mode selection). `src/util.rs` and
  `src/res.rs` hold error boxing and the `fail!` macro; errors here are
  the `Error` datatype. `rakefile.rb` holds build scripts. None of these
  are part of this model.
