# dumpo, modelled in Dafny

dumpo packs a source tree into one Markdown document:
- a title line and the root;
- then every eligible file, in byte-wise order of its relative path, as a fenced code block.

The whole document must fit a byte budget (`max_total_bytes`). Each file's content is capped (`max_file_bytes`). When the budget runs out, the pack stops and ends with a fixed truncation footer.

This project models the core of that engine and proves its contracts:

- **The byte sink `Out`** (`Sink.Out`). A class with a byte buffer, a `written` counter and a fixed `max`. Every write either appends all of its bytes or is refused and appends none.
- **`print_file`** (`Render`). Writes one file as a block:
  - the heading lines;
  - then the content, capped at `min(max_file_bytes, remaining - 6)` source bytes and decoded lossily;
  - then the closing fence;
  - then a best-effort `(file truncated)` marker.

  It is modelled both as a module-level method that takes the `Out` it writes to, as `print_file` is a free function taking `&mut Out`, and as a function on `(buffer, capacity)` that the method is proved against.
- **`build_dump_bytes`** (`Dump`). The header, the file loop, and the footer.
  - The file loop passes over unreadable and binary files and stops at the first file that hits the limit.
  - The footer is appended only after such a stop.
  - The file system is a map from full path to contents; a path with no entry is a file that cannot be read.
- **`collect_files_sorted`** (`Collect`, `Sorting`). A pre-order walk over a directory tree value, pruned by `should_prune_walk_entry`. Kept are the files that `should_skip_file` lets through; their relative paths are then sorted byte-wise.
- **The file filters of `src/filter.rs`** (`Filter`):
  - `is_hidden` is `Filter.IsHidden`;
  - `is_secret_name` is `Filter.IsSecretName`;
  - `has_extension_in` is `Filter.HasExtensionIn`;
  - `should_prune_walk_entry` is `Filter.ShouldPruneWalkEntry`;
  - `should_skip_file` is `Filter.ShouldSkipFile`;
  - plus the constant tables.
- **Rust's `Path::file_name`, `Path::extension` and lossy UTF-8 decoding** (`Paths`, `Utf8`). Lossy decoding is what `Path::display`, `to_string_lossy` and `String::from_utf8_lossy` do.
- **`src/selector.rs`** (`Selector`). Include/exclude glob selection. Glob compilation, set building and matching are parameters.
- **`src/format.rs`** (`Format`). The string builders and constants, with its own copy of the extension-to-language table.

Behaviour the model follows as the code has it:
- **The decoded content can be longer than the cap.** The cap counts source bytes, and it is not moved back to a UTF-8 character boundary. Every ill-formed byte sequence, including a character the cap cuts, decodes to the three-byte U+FFFD. This can eat the six bytes kept back for the closing lines. `Render.SplitCharOverrunsReserve` exhibits a cut `é`: the newline and the closing fence are written, and only the fence's own newline is refused. `Render.StrayBytesOverrunReserve` exhibits two stray bytes within the cap: the closing fence itself is refused. In both cases the dump ends there; its footer's leading newline ends the last line. Once more than 6 bytes are left after the opening fence, the file completes exactly when its whole block fits (`Render.PrintBlockCompletes`, `Render.PrintBlockOverruns`). With 6 or fewer left, the file hits the limit even when its block would fit, as an empty file's does (`Render.PrintBlockNoRoom`).
- **A file that hits the limit can leave part of its block in the output.**
  - When the heading lines do not fit, at most a prefix of them stays (`Render.PrintBlockNoHead`).
  - When they fit but leave no room for content, the heading lines stay (`Render.PrintBlockNoRoom`).
  - When there is room but the whole block does not fit, a prefix of the block stays, from the heading lines on; it can hold the content and part of the closing lines (`Render.PrintBlockOverruns`).
- **The `(file truncated)` marker may be cut short, replaced by a lone blank line, or dropped.** Its refusals are ignored, and the blank-line write is tried even after the marker line was refused (`Render.WriteMarker`, `Render.MarkerLoneNewline`).
- **A header that does not fit the budget makes the whole dump an error.** There is no truncated document (`Dump.BuildDump`).
- **The pruning hook also sees the walk's root.** A hidden root walked without the hidden flag collects nothing, and neither does a root directory named `.git`, `target` or `node_modules`, whatever the flag; a dump whose header fits is then the header alone (`Collect.PrunedRootCollectsNothing`, `Filter.PrunedDirectoryNames`, `Dump.NothingToPrint`).
- **The language hint of a block is taken from the file's full path,** and its heading from the relative path. Below the root both name the same file (`Render.HintOfFullPath`).

## Model

| member | source | states |
|---|---|---|
| Sink.Append | src/dump.rs:167-180 | `try_write`: an empty string succeeds and changes nothing; a non-empty one is appended whole exactly when it fits within `max`, otherwise it is refused and the buffer is unchanged; the buffer never passes `max` |
| Sink.AppendLine | src/dump.rs:182-186 | `try_write_line` succeeds exactly when the text and its newline fit, appending both; when refused, the buffer is unchanged or holds the text without the newline |
| Sink.HalfWrittenLine | src/dump.rs:182-186 | a line that exactly fills the capacity is committed while its newline is refused |
| Sink.Out.constructor | src/dump.rs:155-157 | `new` starts with an empty buffer, `written == 0`, and the invariant holds |
| Sink.Out.Remaining | src/dump.rs:163-165 | `remaining()` plus the bytes written is `max`: the saturating subtraction never saturates |
| Sink.Out.TryWrite | src/dump.rs:167-180 | keeps `written == |buf| <= max`; the new buffer and status are those of `Sink.Append` |
| Sink.Out.TryWriteLine | src/dump.rs:182-186 | keeps the invariant; the new buffer and status are those of `Sink.AppendLine` |
| Sink.Out.WriteLine | src/dump.rs:188-192 | `Ok` exactly when the line fits, otherwise the `max_total_bytes reached` error; the invariant is kept |
| Sink.Out.IntoInner | src/dump.rs:159-161 | hands back the buffer, never longer than `max` |
| Render.LanguageHint | src/dump.rs:92-103 | the table lookup of the extension text; `Format.HintsAgree` gives its value for every extension, `Render.HintOfFullPath` its independence from the root, `Format.RustFileHint` the `rs` case |
| Render.Lookup | src/dump.rs:92-103 | a non-empty hint comes from a table row for that extension; an extension in no row gets the empty hint |
| Render.HintOfFullPath | src/dump.rs:117-119 | below the root, the hint of the full path equals the hint of the relative path |
| Render.BlockClose | src/dump.rs:121-138 | the optional newline, closing fence and blank line take at most the 6 reserved bytes |
| Render.WriteHead | src/dump.rs:117-119 | the three heading writes succeed exactly when heading, blank line and opening fence fit, and then append exactly those lines |
| Render.WriteClose | src/dump.rs:133-138 | the closing writes succeed exactly when the closing bytes fit, and then append exactly them |
| Render.WriteMarker | src/dump.rs:140-143 | the marker writes never fail the file; they append the whole marker when it fits, else a prefix of it, a lone newline, or nothing |
| Render.MarkerLoneNewline | src/dump.rs:140-143 | with one byte of room the marker line is refused but the blank line's newline is written |
| Render.PrintBlock | src/dump.rs:117-145 | `print_file` with the heading and fence given: it only appends, and never past `max` |
| Render.WriteBody | src/dump.rs:127-145 | the content, closing and marker writes only append, and never past `max` |
| Render.PrintFileSpec | src/dump.rs:110-146 | `print_file` only appends, and never past `max` |
| Render.PrintFile | src/dump.rs:110-146 | the method keeps the sink invariant; its new buffer and status are those of `Render.PrintFileSpec` |
| Render.PrintBlockInto | src/dump.rs:117-128 | the heading writes and cap computation agree with `Render.PrintBlock` |
| Render.WriteBodyInto | src/dump.rs:128-145 | the content, closing and marker writes agree with `Render.WriteBody` |
| Render.PrintBlockNoRoom | src/dump.rs:121-126 | with 6 bytes or fewer left after the opening fence, the file signals the total limit, and its heading lines stay in the buffer |
| Render.PrintBlockNoHead | src/dump.rs:117-119 | when the heading lines do not fit, the file signals the total limit, leaving at most a prefix of them |
| Render.WriteBodyFits | src/dump.rs:127-145 | when the decoded content and its closing lines fit, both are written whole, then the marker writes when the file is longer than the cap |
| Render.WriteBodyOverruns | src/dump.rs:127-138 | when the decoded content and its closing lines do not fit together, the body signals the total limit and leaves a prefix of them |
| Render.WriteClosePrefix | src/dump.rs:133-138 | whatever the closing writes leave is a prefix of the closing lines |
| Render.PrintBlockUnfolds | src/dump.rs:117-145 | with more than 6 bytes left after the opening fence and the whole block (heading lines, decoded content, closing lines) fitting, the output is the buffer, the whole block, then the marker writes when the file is longer than the cap; this covers decoded content longer than the cap |
| Render.PrintBlockCompletes | src/dump.rs:121-145 | with more than 6 bytes left after the opening fence and the whole block fitting, the file completes: the block is written whole; only a file longer than the cap is followed by a marker tail; the full marker appears whenever it fits |
| Render.PrintBlockOverruns | src/dump.rs:121-138 | with more than 6 bytes left after the opening fence but a block that does not fit (decoded content longer than the cap, from any ill-formed bytes), the file signals the total limit and leaves a prefix of the block that holds at least the heading lines; with `Render.PrintBlockCompletes`, the file completes exactly when its block fits |
| Render.ShortContentFits | src/dump.rs:121-131 | decoded content no longer than the cap always leaves room for its closing lines, so the block fits |
| Render.PrintFileValidTextCompletes | src/dump.rs:127-131 | content that is valid UTF-8 up to the cap always lets the file complete |
| Render.SplitCharOverrunsReserve | src/dump.rs:127-137 | a two-byte character cut after one byte decodes to U+FFFD and makes `print_file` signal the total limit; the buffer then holds the heading lines, U+FFFD, a newline and the closing fence without its newline |
| Render.StrayBytesOverrunReserve | src/dump.rs:127-137 | two stray bytes within the cap decode to six bytes and make `print_file` signal the total limit; the buffer holds the heading lines, the decoded text and a newline, with the closing fence refused |
| Dump.LooksBinary | src/dump.rs:88-90 | a NUL byte anywhere in the contents; `Dump.PrintableFiles` and `Dump.SkippedFilesContributeNothing` state that such files are passed over |
| Dump.Budget | src/dump.rs:17-18 | the budget leaves room for the 42-byte footer, or is 0 when `max_total_bytes` is smaller than the footer |
| Dump.WriteHeader | src/dump.rs:22-24 | the header writes succeed exactly when the three header lines fit the budget, writing exactly them; otherwise `max_total_bytes reached` |
| Dump.RenderFiles | src/dump.rs:28-47 | the file loop only appends, and never past the budget |
| Dump.BuildDump | src/dump.rs:11-55 | `Err` exactly when the header lines do not fit the budget; an `Ok` dump starts with the header |
| Dump.BuildDumpBytes | src/dump.rs:11-55 | the method returns exactly `Dump.BuildDump` |
| Dump.WriteHeaderInto | src/dump.rs:22-24 | the three `write_line` calls agree with `Dump.WriteHeader` |
| Dump.PrintFiles | src/dump.rs:28-47 | the loop with its early `break` agrees with `Dump.RenderFiles`: the truncation flag and the buffer it leaves |
| Dump.DumpWithinBudget | src/dump.rs:17-54 | whenever `build_dump_bytes` returns `Ok`, the output is at most `max_total_bytes` long |
| Dump.StopsAtFirstLimit | src/dump.rs:40-46 | once a file hits the total limit, the files after it change nothing: they are not attempted |
| Dump.RenderFilesCompose | src/dump.rs:28-47 | files that all complete leave the buffer the following files continue from |
| Dump.PrintableFiles | src/dump.rs:31-38 | a collected path is printable (the loop reaches `print_file` for it, unless the limit stopped the loop earlier) exactly when its file can be read and holds no NUL byte |
| Dump.SkippedFilesContributeNothing | src/dump.rs:31-38 | unreadable and binary files contribute nothing: the loop over the printable files alone gives the same buffer and flag |
| Dump.FooterExactlyOnLimit | src/dump.rs:49-54 | the footer follows the loop's bytes exactly when a file hit the limit; otherwise the dump is the loop's bytes, within the budget |
| Dump.NothingToPrint | src/dump.rs:28-54 | with no printable file, the dump is the header alone, with no footer |
| Collect.CollectFilesSorted | src/dump.rs:57-86 | the collecting loop and sort give `Collect.Collected`: sorted, and a permutation of the kept walk entries |
| Collect.CollectedMembers | src/dump.rs:57-86 | a path is collected exactly when the walk yielded a non-directory entry at that path that is not skipped |
| Collect.CollectedIgnoresWalkOrder | src/dump.rs:84 | any order of visiting the same entries gives the same result, so two calls on one tree agree |
| Collect.WalkClean | src/dump.rs:60-63 | every walked entry passed the pruning hook, and so did every directory above it |
| Collect.WalkReaches | src/dump.rs:60-63 | the converse: a node reached through directories the hook lets through, and let through itself, is walked, with its components as path |
| Collect.CollectedReaches | src/dump.rs:57-86 | a file reached through directories the hook lets through, neither pruned nor skipped itself, is collected at the path joined from its components |
| Collect.NoHiddenComponents | src/dump.rs:60-63 | without the hidden flag, no collected entry has a hidden name anywhere in its path |
| Collect.NeverBelowPrunedDir | src/dump.rs:60-63 | no entry lies inside a `.git`, `target` or `node_modules` directory |
| Collect.PrunedRootCollectsNothing | src/dump.rs:60-63 | a root that the hook prunes yields no files |
| Sorting.SortPaths | src/dump.rs:84 | the sort returns the same paths in non-decreasing byte order |
| Sorting.SortedUnique | src/dump.rs:84 | two sorted arrangements of the same paths are equal |
| Sorting.SortIgnoresOrder | src/dump.rs:84 | the sorted result does not depend on the order the paths were found in |
| Bytes.LexLeTotal | src/dump.rs:84 | any two byte strings are comparable |
| Bytes.LexLeAntisymmetric | src/dump.rs:84 | byte strings that compare both ways are equal |
| Bytes.LexLeTransitive | src/dump.rs:84 | the byte-wise order is transitive |
| Filter.ShouldPruneWalkEntry | src/filter.rs:17-29 | `should_prune_walk_entry` on the lossily read name; its decision is stated on the raw name by `Filter.PruneOnRawName`, with `Filter.PrunedDirectoryNames` and `Filter.HiddenPruning` for each rule |
| Filter.ShouldSkipFile | src/filter.rs:31-58 | `should_skip_file` on the file name, its rules in source order; `Filter.InvalidNameSkipped`, `Filter.SecretNamesSkipped`, `Filter.ExcludedNamesSkipped`, `Filter.ExtensionTablesSkipped` and `Filter.HiddenRuleDecides` state each rule, `Filter.SkipMonotone` the flag |
| Filter.IsHidden | src/filter.rs:60-62 | starts with `.` and is not `.`; `Filter.HiddenPruning`, `Filter.HiddenRuleDecides` and `Filter.LeadingDotPem` state its use |
| Filter.IsSecretName | src/filter.rs:64-69 | `.env` or a name starting with `.env.`; `Filter.SecretNamesSkipped` states that such names are skipped |
| Filter.HasExtensionIn | src/filter.rs:71-77 | the extension, when it is text, equals an entry up to ASCII case; `Filter.ExtensionTablesSkipped` and `Filter.LeadingDotPem` state its use |
| Filter.PruneOnRawName | src/filter.rs:17-29 | pruning decided on the lossily decoded name is the same as deciding on the raw name |
| Filter.PrunedDirectoryNames | src/filter.rs:17-22 | `.git`, `target` and `node_modules` directories are pruned whatever the flag; files of those names are pruned only by the hidden rule |
| Filter.HiddenPruning | src/filter.rs:20-26 | a hidden entry that is not a directory named in the pruned table is pruned exactly when hidden entries are not included (a `.git` directory is pruned even with the hidden flag) |
| Filter.InvalidNameSkipped | src/filter.rs:31-35 | a file name that is not valid UTF-8 is always skipped |
| Filter.SecretNamesSkipped | src/filter.rs:37-39 | `.env` and every name starting with `.env.` is skipped, whatever the flag |
| Filter.ExcludedNamesSkipped | src/filter.rs:41-43 | `LICENSE`, `Makefile`, `Cargo.lock` and `.dumpo.debug.md` are always skipped |
| Filter.ExtensionTablesSkipped | src/filter.rs:49-55 | an extension equal, up to ASCII case, to an entry of the secret or excluded table is skipped, whatever the flag |
| Filter.HiddenRuleDecides | src/filter.rs:45-47 | for a name no table rejects, the file is skipped exactly when it is hidden and hidden files are not included |
| Filter.SkipMonotone | src/filter.rs:31-58 | a file skipped with hidden files included is also skipped without them |
| Filter.LeadingDotPem | src/filter.rs:71-75 | `.pem` has no extension: it is kept with the hidden flag and skipped without it |
| Paths.FileName | src/filter.rs:32 | the file name is the slash-free tail of the path that starts right after the last `/`, or the whole path when it has none |
| Paths.Extension | src/filter.rs:72 | there is an extension exactly when the name is not `..` and has a dot after its first byte; it is the text after the last dot |
| Paths.LeadingDotOnlyHasNoExtension | src/filter.rs:71-75 | a name whose only dot is its leading one has no extension |
| Paths.FileNameOfJoin | src/dump.rs:80 | the file name of a relative path is its last component |
| Paths.Under | src/dump.rs:80 | a full path ends with its relative path |
| Paths.UnderKeepsFileName | src/dump.rs:80 | below the root, the full path and the relative path have the same file name |
| Paths.LastIndexOfConcat | src/dump.rs:80 | the last `/` of a joined path is the last one of the part after the join, when it has one, else the last one before it |
| Paths.FileNameOfConcat | src/dump.rs:80 | a prefix ending in `/` does not change the file name of what follows it |
| Utf8.Lossy | src/dump.rs:130 | `String::from_utf8_lossy`: well-formed characters kept, each maximal ill-formed subpart replaced by U+FFFD; `Utf8.LossyOfValid`, `Utf8.LossyIsUtf8` and `Utf8.LossyKeepsLeadingDot` state its properties |
| Utf8.LossyOfValid | src/dump.rs:130 | decoding well-formed UTF-8 lossily changes nothing |
| Utf8.AsciiLossy | src/dump.rs:130 | ASCII text decodes to itself |
| Utf8.LossyIsUtf8 | src/dump.rs:130 | the lossy decoding of any bytes is well-formed UTF-8 |
| Utf8.LossyAsciiOnlyFromAscii | src/filter.rs:18 | a name whose decoding is ASCII was that ASCII text already |
| Utf8.LossyKeepsLeadingDot | src/filter.rs:18 | the decoded name starts with `.` exactly when the raw name does |
| Utf8.SplitCharGrows | src/dump.rs:128-130 | one byte of a split two-byte character decodes to three bytes |
| Utf8.StrayBytesGrow | src/dump.rs:128-130 | two bytes that cannot start a character decode to two U+FFFD, six bytes |
| Format.LanguageHint | src/format.rs:21-32 | the `language_hint` of `src/format.rs` agrees with the one of `src/dump.rs` on every path |
| Format.HintFor | src/format.rs:22-31 | the match arms agree with the `src/dump.rs` table on every extension text |
| Format.HintsAgree | src/format.rs:22-31 | the table lookup and the match give the same hint for every extension text |
| Format.CodeFenceOpen | src/format.rs:17-19 | the fence followed by the language hint; the same line the dump opens a block with |
| Format.FileHeading | src/format.rs:13-15 | `## ` followed by the displayed path; the same line the dump heads a block with |
| Format.RootLine | src/format.rs:9-11 | `- root: ` followed by the displayed root; the same line the dump's header carries |
| Format.ConstantsAgree | src/format.rs:3-7 | the title and the 42-byte footer equal the dump's; the marker and the closing fence are the dump's lines; a newline and the closing fence are the 6 reserved bytes |
| Format.BlockCloseIsCodeblockClose | src/format.rs:5 | a block's closing bytes are `CODEBLOCK_CLOSE`, after at most one newline |
| Format.FileHeadingInjective | src/format.rs:13-15 | headings of well-formed paths tell the paths apart |
| Format.FileHeadingLossyCollision | src/format.rs:13-15 | two different ill-formed one-byte names get the same heading |
| Format.YamlSpellings | src/format.rs:26 | `yml` and `yaml` both give `yaml` |
| Format.UnknownExtensions | src/format.rs:22-31 | the match is case-sensitive (`RS` gets no hint), and no extension gets no hint |
| Format.RustFileHint | src/format.rs:21-23 | every path whose file name has the extension `rs` gets `rust` |
| Format.RustFileExample | src/format.rs:21-23 | `a.rs` gets `rust` |
| Selector.FirstInvalid | src/selector.rs:44-47 | names the first pattern that does not compile, or none when all compile |
| Selector.GlobSetOf | src/selector.rs:42-50 | `build_globset` succeeds exactly when every pattern compiles and the set builds, holding all the patterns; each error names the flag |
| Selector.BuildGlobSet | src/selector.rs:42-50 | the builder loop agrees with `Selector.GlobSetOf`, failing on the first pattern that does not compile |
| Selector.FirstInvalidIsFirst | src/selector.rs:44-47 | the first pattern that does not compile is the one reported |
| Selector.OptionalSet | src/selector.rs:12-16 | an empty list gives no set; a non-empty one gives the set of its patterns, or the build error |
| Selector.New | src/selector.rs:11-25 | a selector has an include set exactly when includes were given, and likewise for excludes; an `--exclude` error arises only when the includes built |
| Selector.NewFails | src/selector.rs:11-16 | an include pattern that does not compile fails `new`, naming `--include` and the first such pattern |
| Selector.NewFailsOnExclude | src/selector.rs:18-22 | once the includes build, an exclude pattern that does not compile fails `new`, naming `--exclude` and the first such pattern |
| Selector.Matches | src/selector.rs:27-39 | included (or no include set) and not excluded (or no exclude set); `Selector.MatchesBuilt`, `Selector.EmptyListsMatchAll` and `Selector.ExcludeWins` state it for a built selector |
| Selector.MatchesBuilt | src/selector.rs:27-39 | a path matches exactly when it matches some include pattern (or none were given) and matches no exclude pattern |
| Selector.EmptyListsMatchAll | src/selector.rs:11-39 | with both lists empty, `new` gives no sets and every path matches |
| Selector.ExcludeWins | src/selector.rs:27-39 | a path matched by an exclude pattern is rejected, whatever the include patterns say |

## Left out

- The directory walk is a tree value (`Collect.Node`). walkdir's I/O is not modelled: symbolic links, walk errors, permission errors, and the errors skipped at `src/dump.rs:65-68`. The order of a directory's children stands for the order the operating system lists them in.
- The root's node name stands for what walkdir reports as the root entry's file name.
- `fs::read` is a map from full path to bytes: a path that is absent cannot be read. I/O errors are not told apart.
- Paths are `/`-joined byte strings whose components hold no `/`. Operating-system separators and Windows paths are not modelled. On Unix, `Path::display` and `to_string_lossy` are the lossy UTF-8 decoding.
- Collect.Node: node names are not constrained. Trees with a name that holds a `/`, is empty, or is `.` or `..` are outside the model: walkdir never yields such a name for an entry below the root. For such a tree the name the skip rules check and the file name the language hint uses could differ.
- Integers are unbounded. `usize` wrap-around cannot occur in the model: `saturating_add` at `usize::MAX` in `try_write` is not modelled, while the saturating budget subtraction is.
- Sink.Out.TryWrite: does not model a failing `write_all`. The writer is a `Vec<u8>`, which cannot fail.
- Glob compilation, set building and matching belong to the `globset` library. They are parameters (`Selector.Globs`), not their real behaviour.
- `Selector` is not used by `collect_files_sorted` or `build_dump_bytes`, so no interaction with the file filters is stated.
- `src/format.rs` is not called by `src/dump.rs`, which writes its own strings. The two are related only by the agreement lemmas in `Format`.
- `src/pack.rs` is not part of this model: canonicalisation, clipboard, debug-file writing, stdout. Nor are `src/main.rs` (argument parsing), `src/config.rs` (configuration files), `src/clipboard.rs` (process spawning) and `src/testutil.rs` (test scaffolding).
