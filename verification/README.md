# minigrep in Dafny

A model of `src/lib.rs` of minigrep, a small command-line search tool:
`minigrep <query> <path> [-i] [-r] [-a] [-c]` lists the directory at
`<path>`, searches every text file in it for lines containing `<query>`
and prints the matching lines (or their number), optionally descending
into subdirectories and optionally including hidden entries.

The model is split as the program is:

- `wrappers.dfy` — `Option` and `Result`.
- `seqs.dfy` — small generic facts about sequences used by the proofs.
- `text.dfy` (module `Text`) — the parts of Rust's `str` the program relies
  on: `lines`, `contains`, `to_lowercase`, `trim` and `split('/')`, each
  with a reference property (an inverse, a characterisation or an
  idempotence law).
- `matcher.dfy` (module `Matcher`) — `search` and `search_case_insensitive`:
  the `(index, line)` pairs of the lines that contain the query, exactly
  and in order, plus the two unit tests of the file, proved.
- `hidden.dfy` (module `HiddenFilter`) — `find_hidden_files`, which answers
  "is this entry visible?" from the last `/`-separated piece of the path.
- `config.dfy` (module `Configuration`) — `Config` and `Config::build`,
  written as a method with the flag loop; the `IGNORE_CASE` lookup is a
  boolean parameter.
- `traversal.dfy` (module `Traversal`) — the body of `run`. The file system
  is a value (listings of directories that can be listed, contents of files
  that can be read); printing is an output log of records. `Traverse` is the
  reference definition of the worklist loop; `RunLoop` and `Run` are the
  loop itself, a `while` over the `dir_queue` stack, proved to produce
  exactly what `Traverse` describes; `VisitPath`, `SearchFiles` and
  `PrintResults` are the loop body's listing, file loop and printing loop,
  each proved equal to its specification function.

An empty path is visible: `find_hidden_files("")` splits into one empty
piece, and an empty last piece does not start with '.'
(`HiddenFilter.EmptyPathIsVisible`).

## Model

| member | source | states |
|---|---|---|
| Text.Lines | src/lib.rs:149 | `str::lines`, characterised by the lemmas below: the inverse of joining terminated lines, '\r' dropped before '\n', no empty line after a final '\n' |
| Text.LinesHaveNoNewline | src/lib.rs:149 | no line of `lines()` holds a '\n', and only the empty text has no lines |
| Text.LinesOfTerminatedLine | src/lib.rs:149 | a '\n'-terminated line without a trailing '\r' comes out of `lines()` unchanged, followed by the lines of the rest |
| Text.LinesOfUnlines | src/lib.rs:149 | `lines()` is the inverse of joining '\n'-terminated lines: the lines come back, followed by the lines of whatever text follows |
| Text.CrLfLine | src/lib.rs:149 | a line terminated by "\r\n" comes out without its '\r', followed by the lines of the rest |
| Text.TerminatedLines | src/lib.rs:149 | a text ending in '\n' has no extra empty last line |
| Text.UnterminatedLastLine | src/lib.rs:149 | a last line without '\n' is still a line |
| Text.Contains | src/lib.rs:151 | `contains` is true iff the query occurs at some position of the line |
| Text.MissingCharacter | src/lib.rs:151 | a line lacking one of the query's characters does not contain the query |
| Text.FirstCharacterMissing | src/lib.rs:151 | if the query's first character is missing from `a`, the query occurs in `a + b` only if it occurs in `b` |
| Text.LowerChar | src/lib.rs:160 | no capital comes out; a lowercase letter comes from itself or its capital; any other character comes from itself |
| Text.ToLower | src/lib.rs:160 | `to_lowercase` (ASCII), characterised by `ToLowerAt`, `ToLowerAppend` and `ToLowerIdempotent` |
| Text.ToLowerAt | src/lib.rs:160 | lowercasing keeps the length and lowercases each character on its own |
| Text.LowercaseLetterMissing | src/lib.rs:160 | a lowercase letter is absent from the lowercased text when neither of its cases is in the text |
| Text.ToLowerAppend | src/lib.rs:160 | lowercasing distributes over concatenation |
| Text.ToLowerIdempotent | src/lib.rs:160 | no capital is left after lowercasing, so lowercasing twice equals lowercasing once |
| Text.ContainsToLower | src/lib.rs:160 | an exact occurrence stays an occurrence once line and query are lowercased |
| Text.IsWhitespace | src/lib.rs:36 | the characters `char::is_whitespace` accepts: the Unicode White_Space set |
| Text.TrimStart | src/lib.rs:36 | `trim_start`, characterised by `TrimStartCuts` |
| Text.TrimEnd | src/lib.rs:36 | `trim_end`, characterised by `TrimEndCuts` |
| Text.Trim | src/lib.rs:36 | `trim`, characterised by `TrimIsSlice`, `TrimmedEnds` and `TrimIdempotent` |
| Text.TrimStartCuts | src/lib.rs:36 | `trim_start` keeps a suffix, cuts only whitespace, and stops at a non-whitespace character |
| Text.TrimEndCuts | src/lib.rs:36 | `trim_end` keeps a prefix, cuts only whitespace, and stops at a non-whitespace character |
| Text.TrimIsSlice | src/lib.rs:36 | `trim` returns a slice `s[i..j]` of the line with only whitespace before `i` and after `j` |
| Text.TrimmedEnds | src/lib.rs:36 | a non-empty trimmed line neither starts nor ends with whitespace |
| Text.TrimKeepsTrimmed | src/lib.rs:36 | a line without whitespace at either end is left as it is |
| Text.TrimIdempotent | src/lib.rs:36 | trimming twice is trimming once |
| Text.Split | src/lib.rs:62 | `split('/')` yields at least one piece, and no piece holds the separator |
| Text.JoinSplit | src/lib.rs:62 | joining the pieces of a split with the separator gives back the path |
| Text.SplitJoin | src/lib.rs:62 | splitting the join of separator-free pieces gives back the pieces |
| Text.LastPiece | src/lib.rs:62-64 | `parts.last()` is the text after the last separator |
| Matcher.Select | src/lib.rs:148-152 | `enumerate().filter(keep).collect()` lists exactly the kept lines with their indices, in increasing index order |
| Matcher.SelectIsUnique | src/lib.rs:148-152 | only one sequence has that exact-selection property, so it characterises the filter completely |
| Matcher.SelectAll | src/lib.rs:148-152 | a filter that keeps every line returns every line, numbered from 0 |
| Matcher.Search | src/lib.rs:147-153 | every hit is `(i, L[i])` with `L[i]` containing the query, indices strictly increase, and every line containing the query is a hit |
| Matcher.SearchCaseInsensitive | src/lib.rs:156-162 | every hit is `(i, L[i])` with the original line, whose lowercase form contains the lowercased query; indices strictly increase; no such line is missed |
| Matcher.SearchEmptyQuery | src/lib.rs:147-153 | the empty query returns every line with its index |
| Matcher.SearchWithinCaseInsensitive | src/lib.rs:156-162 | every case-sensitive hit is also a case-insensitive hit |
| Matcher.CaseInsensitiveIgnoresQueryCase | src/lib.rs:160 | the case of the query makes no difference to the case-insensitive search |
| Matcher.DuctPoemLines | src/lib.rs:178-182 | the test poem splits into its four lines |
| Matcher.CaseSensitiveTest | src/lib.rs:175-185 | `search("duct", poem)` is `[(1, "safe, fast, productive.")]` |
| Matcher.TrustPoemLines | src/lib.rs:190-194 | the second test poem splits into its four lines |
| Matcher.CaseInsensitiveTest | src/lib.rs:187-200 | `search_case_insensitive("rUsT", poem)` is `[(0, "Rust:"), (3, "Trust me.")]` |
| HiddenFilter.FindHiddenFiles | src/lib.rs:60-73 | `find_hidden_files`, characterised by `HiddenIffDotAfterLastSlash` and `NameDecides` |
| HiddenFilter.HiddenIffDotAfterLastSlash | src/lib.rs:60-73 | an entry is hidden iff the text after its last '/' is non-empty and starts with '.' |
| HiddenFilter.TrailingSlashIsVisible | src/lib.rs:64-69 | a path ending in '/' is visible |
| HiddenFilter.EmptyPathIsVisible | src/lib.rs:61-69 | the empty path is visible |
| HiddenFilter.OnlyLastPieceMatters | src/lib.rs:62-65 | a hidden parent does not hide `dir/name`: only `name` decides |
| HiddenFilter.GitIsHidden | src/lib.rs:65-66 | `.git` and `src/.git` are hidden |
| HiddenFilter.NameDecides | src/lib.rs:60-73 | `dir/name` is hidden iff `name` is non-empty and starts with '.' |
| Configuration.Build | src/lib.rs:111-143 | fails with "not enough arguments" iff fewer than 3 arguments; otherwise succeeds iff every later argument is one of `-i`, `-r`, `-a`, `-c`, failing with "Unknown flag or parameter" else; on success query and path are `args[1]`, `args[2]`, `recursive`/`hidden`/`count` are true iff their flag occurs, and `ignore_case` is the environment flag whatever `-i` says |
| Traversal.ListFiles | src/lib.rs:13 | `list_files(path)`: the directory's listing, or nothing when it cannot be listed |
| Traversal.ReadToString | src/lib.rs:20 | `fs::read_to_string`: the file's contents, or nothing when it cannot be read |
| Traversal.VisibleOnly | src/lib.rs:14-16 | the filter keeps exactly the visible entries, never more than there were |
| Traversal.VisibleOnlyAppend | src/lib.rs:14-16 | the filter keeps the listing order: it distributes over concatenation |
| Traversal.Entries | src/lib.rs:14-17 | with `-a` the entries are all kept as listed; otherwise exactly the visible ones |
| Traversal.Numbered | src/lib.rs:34-37 | one printed line per hit, numbered one more than its 0-based index, with the line trimmed |
| Traversal.Report | src/lib.rs:27-38 | what is printed for one file, characterised by `ReportShape` |
| Traversal.Searcher | src/lib.rs:22-26 | `search_case_insensitive` under `ignore_case`, `search` otherwise |
| Traversal.ReportShape | src/lib.rs:27-38 | a file is reported iff it has a hit, in one record naming it: with `-c` the number of hits, otherwise every hit numbered from 1 and trimmed |
| Traversal.PrintResults | src/lib.rs:27-38 | the printing loop produces exactly the file's report |
| Traversal.NumberedAppend | src/lib.rs:34-37 | one more hit adds one more numbered line at the end |
| Traversal.SearchFilesSpec | src/lib.rs:19-40 | every record is the report of one of the files; a failure names a listed file that cannot be read; no failure means every file was read |
| Traversal.SearchFilesComplete | src/lib.rs:19-40 | when every file reads, every file with a hit has a record |
| Traversal.SearchFilesAdvance | src/lib.rs:19-38 | a readable file appends its report to what the file loop printed so far |
| Traversal.SearchFilesStop | src/lib.rs:20 | the file loop stops at the first unreadable file, printing nothing more and returning that file |
| Traversal.SearchFiles | src/lib.rs:19-40 | the `for` loop over the files yields exactly the records and the failure of `SearchFilesSpec` |
| Traversal.VisitDir | src/lib.rs:13-40 | a visit fails to list iff the directory is not listable; whatever it prints is a sound report of a file from this directory's filtered listing; a read failure names a listed, unreadable file that passed the hidden filter; a listed visit pushes the filtered subdirectories |
| Traversal.VisitComplete | src/lib.rs:13-40 | in a directory searched to the end, every visible file reads and every one with a hit has a record |
| Traversal.VisitPath | src/lib.rs:13-40 | the loop body's listing, filtering and searching yields exactly the visit of `VisitDir` |
| Traversal.Traverse | src/lib.rs:12-54 | the loop makes at most `fuel` passes, at least one when it has fuel, starts at the current path, and without `-r` makes at most one pass |
| Traversal.TraverseOutput | src/lib.rs:12-54 | the output is what the visits print, in the order the directories are visited |
| Traversal.RunPrintsReports | src/lib.rs:7-57 | every record a run prints is the report of a readable file with a hit, visible unless `-a` was given |
| Traversal.PrintedFromListings | src/lib.rs:13-40 | every record printed by the visits of some directories names a file from the filtered listing of one of them |
| Traversal.RunPrintsListedFiles | src/lib.rs:7-57 | every record a run prints names a file from the filtered listing of a directory the run entered |
| Traversal.NonRecursiveRunSearchesStartOnly | src/lib.rs:13-45 | without `-r` every record names one of the starting directory's own files, after the hidden filter |
| Traversal.RunReportsEveryHit | src/lib.rs:7-57 | every visible file with a hit in a directory the run searches to the end is reported |
| Traversal.TraverseEntersPushed | src/lib.rs:42-48 | every directory entered after the first was pending at the start or pushed by the visit of some listed directory |
| Traversal.TraverseEntersPushedEarlier | src/lib.rs:42-48 | every directory entered after the first was pending at the start or pushed by the visit of a directory entered earlier |
| Traversal.PushedByVisitor | src/lib.rs:13-17 | what a visit pushes is a listed subdirectory that passed the hidden filter |
| Traversal.RunEntersListedSubdirectories | src/lib.rs:7-57 | after the starting path a run enters only listed subdirectories, and without `-a` never a hidden one; each is a filtered subdirectory of a directory entered before it |
| Traversal.TraversePrefixListed | src/lib.rs:42-53 | every directory the loop leaves for another was listed and searched to the end |
| Traversal.TraverseCompletes | src/lib.rs:42-48 | a recursive loop that ends with an empty stack has entered every pending directory and everything its visits pushed, and listed every directory it entered |
| Traversal.RunCompletes | src/lib.rs:7-57 | a recursive run that completes has listed every directory it entered and entered every subdirectory of those listings that passed the hidden filter |
| Traversal.RunSucceedsWhenFilesRead | src/lib.rs:19-20 | when every file a listing names can be read, the run returns `Ok(())` |
| Traversal.TraverseFuelUse | src/lib.rs:12-54 | running out of passes means all of them were used; any other ending made at least one pass |
| Traversal.TraverseOutcome | src/lib.rs:12-54 | a listing or read failure belongs to the last directory entered, and a completed loop's last directory was listed |
| Traversal.VisitorFailuresExplained | src/lib.rs:13-20 | a failed listing is a directory that cannot be listed; a failed read is a visible (or `-a`) listed file that cannot be read |
| Traversal.TraverseFailures | src/lib.rs:12-56 | a read failure ends the run with that file, a file of the last directory; a listing failure ends it silently with `Ok`, every earlier directory having been listed |
| Traversal.RunFailures | src/lib.rs:7-57 | the same, for a whole run |
| Traversal.NonRecursiveRunVisitsStartOnly | src/lib.rs:44-45 | without `-r` only the starting path is listed |
| Traversal.NextIsLastPushed | src/lib.rs:42-48 | the next directory entered is the last one pushed (a stack pop) |
| Traversal.SiblingsInReverseOrder | src/lib.rs:42-48 | subdirectories `a`, `b` of the root are searched in the order root, `b`, `a` |
| Traversal.ListingFailureAbandonsPending | src/lib.rs:51-53 | an unlistable directory stops the run with `Ok` even though another directory is still pending |
| Traversal.TraverseAdvance | src/lib.rs:42-48 | after a pass that pushes and pops, the rest of the loop continues from the popped directory with the shorter stack |
| Traversal.TraverseUnlistable | src/lib.rs:51-56 | a directory that cannot be listed ends the loop with what was printed and `Ok` |
| Traversal.TraverseUnreadable | src/lib.rs:20 | an unreadable file ends the loop with the records printed before it and the file as the error |
| Traversal.TraverseDone | src/lib.rs:44-45 | an empty stack or a non-recursive run ends the loop with this pass's records and `Ok` |
| Traversal.RunLoop | src/lib.rs:9-56 | the `dir_queue` loop prints exactly what `Traverse` prints and returns `Err` or `Ok` as it says |
| Traversal.Run | src/lib.rs:7-57 | `run` prints exactly the output of the traversal from the configured path with the configured search, and returns its result |

## Left out

- The operating system: `fs::read_dir`, `is_dir`, `is_utf8_file` and `fs::read_to_string` (src/lib.rs:76-98, 164-169) are not modelled as code. A directory listing is an entry of `FileSystem.listings` (absent: `read_dir` fails), whose `files` already hold only the entries that read as UTF-8; a file's contents are an entry of `FileSystem.contents` (absent: the read fails). Per-entry errors skipped by `list_files` are simply not in the listing.
- `env::var("IGNORE_CASE")` is process state: `Configuration.Build` takes `env::var("IGNORE_CASE").is_ok()` as `envPresent`, which is true when the variable is set to a valid Unicode value (a value that is not valid Unicode counts as unset).
- `println!` formatting (the blank line, `In: {:?}`, `l.{:03}`, `Found: … occurrences`) is presentation: output is a log of structured records, `Occurrences(file, count)` and `MatchedLines(file, [(number, trimmed line)])`.
- `to_string_lossy` on paths: paths are strings already, so no replacement of invalid UTF-8 is modelled.
- Text.ToLower: lowercases ASCII capitals only; Rust's `to_lowercase` also maps non-ASCII letters, may change a string's length and depends on context (a final capital sigma: "ΑΣ" becomes "ας" but "Σ" becomes "σ"). `Text.ToLowerAppend` and `Matcher.SearchWithinCaseInsensitive` hold for this ASCII model only: in the program `search` finds "Σ" in "ΑΣ" but `search_case_insensitive` does not.
- Traversal.Run: runs for at most `fuel` passes, because the directory graph of a real file system (symbolic links) need not be finite or acyclic; the `OutOfFuel` outcome has no counterpart in the program and is reported as `Ok`.
- Traversal.RunLoop: takes the body of a pass (listing, filtering, searching) as a function value; `Traversal.VisitPath` is that body as imperative code, proved equal to it, but `Run` hands `RunLoop` the function `Visitor` rather than calling `VisitPath`.
- Traversal.Traverse: the stack is a `seq` reassigned on each pass, not a growable vector updated in place; aliasing does not arise since `run` owns it.
- The `else false` branch of `find_hidden_files` is unreachable (`split` always yields a piece); `HiddenFilter.FindHiddenFiles` keeps it, and no lemma needs it.
- The "Missing query argument" and "Missing file path argument" errors of `Config::build` cannot happen after the length check: `Configuration.Build` keeps both branches, and its contract shows that no call reaches them.
- `str::lines` is modelled for '\n' terminators with an optional '\r' before them; a lone '\r' at the very end of the text stays in the last line, as Rust does.
- Traversal.RunResult: the error of a failed run is the path of the file that could not be read; the program returns the `io::Error` of `read_to_string` through `?`, which does not name the file.
- A file in a listing has already been read once by `is_utf8_file` (src/lib.rs:86, 165), so in the program the read at line 20 fails only when the file changed between the two reads. The model does not tie `FileSystem.contents` to the listings, so a `ReadFailed` run arises only when they disagree; `Traversal.RunSucceedsWhenFilesRead` shows that a run over a file system where they agree returns `Ok(())`.
- The `expect("This is the test")` on `pop` cannot fail, since the stack was checked non-empty; it has no counterpart.
