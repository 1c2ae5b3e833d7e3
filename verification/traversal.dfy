/**
 * The traversal driver: the loop of `run` in src/lib.rs. The file system is
 * a value: for each directory that can be listed, its subdirectories and
 * its text files as `list_files` returns them, and for each file that can
 * be read, its contents. Printing becomes an output log.
 */
module Traversal {
  import opened Wrappers
  import opened Seqs
  import opened Text
  import opened Matcher
  import opened HiddenFilter
  import opened Configuration

  /**
   * What `list_files` returns for one directory: the subdirectories and the
   * files that read as UTF-8 text, each in enumeration order.
   */
  datatype DirListing = DirListing(dirs: seq<Path>, files: seq<Path>)

  /**
   * A directory missing from `listings` cannot be listed (`read_dir`
   * fails); a file missing from `contents` cannot be read (`read_to_string`
   * fails).
   */
  datatype FileSystem = FileSystem(listings: map<Path, DirListing>, contents: map<Path, string>)

  /** What `run` prints for one file with matches, as a structured record. */
  datatype Output =
    | Occurrences(file: Path, count: nat)                      // count mode: "Found: n occurrences"
    | MatchedLines(file: Path, lines: seq<(nat, string)>)      // 1-based line number and line

  /** How the loop ended. Only `ReadFailed` makes `run` return an error. */
  datatype Outcome =
    | Completed                  // the stack was empty, or recursion is off
    | ListingFailed(dir: Path)   // silent stop, even with directories still pending
    | ReadFailed(file: Path)     // the error returned by `run`
    | OutOfFuel                  // the model's iteration bound was reached

  /** The value `run` returns: `Err` for a file read failure, `Ok(())` otherwise. */
  function RunResult(outcome: Outcome): (r: Result<(), Path>)
    ensures r.Failure? <==> outcome.ReadFailed?
    ensures r.Failure? ==> r.error == outcome.file
  {
    if outcome.ReadFailed? then Failure(outcome.file) else Success(())
  }

  /** `list_files(path)`: the listing, or nothing when `read_dir` fails. */
  function ListFiles(fs: FileSystem, dir: Path): Option<DirListing> {
    if dir in fs.listings then Some(fs.listings[dir]) else None
  }

  /** `fs::read_to_string(file)`: the contents, or nothing when the read fails. */
  function ReadToString(fs: FileSystem, file: Path): Option<string> {
    if file in fs.contents then Some(fs.contents[file]) else None
  }

  /** `iter().filter(find_hidden_files)`: the visible entries, in order. */
  function VisibleOnly(ps: seq<Path>): (r: seq<Path>)
    ensures forall p :: p in r <==> p in ps && FindHiddenFiles(p)
    ensures |r| <= |ps|
  {
    if ps == [] then []
    else (if FindHiddenFiles(ps[0]) then [ps[0]] else []) + VisibleOnly(ps[1..])
  }

  /** Filtering keeps the order of the entries: it distributes over concatenation. */
  lemma {:induction false} VisibleOnlyAppend(a: seq<Path>, b: seq<Path>)
    ensures VisibleOnly(a + b) == VisibleOnly(a) + VisibleOnly(b)
  {
    if a != [] {
      assert (a + b)[1..] == a[1..] + b;
      VisibleOnlyAppend(a[1..], b);
    } else {
      assert a + b == b;
    }
  }

  /** The entries the run works on: all of them with `-a`, the visible ones otherwise. */
  function Entries(hidden: bool, ps: seq<Path>): (r: seq<Path>)
    ensures hidden ==> r == ps
    ensures !hidden ==> forall p :: p in r <==> p in ps && FindHiddenFiles(p)
  {
    if !hidden then VisibleOnly(ps) else ps
  }

  /**
   * Lines as printed: numbered one more than the 0-based index, with the
   * whitespace on both ends trimmed.
   */
  function Numbered(hits: seq<Hit>): (r: seq<(nat, string)>)
    ensures |r| == |hits|
    ensures forall k :: 0 <= k < |hits| ==> r[k] == (hits[k].index + 1, Trim(hits[k].line))
  {
    if hits == [] then [] else [(hits[0].index + 1, Trim(hits[0].line))] + Numbered(hits[1..])
  }

  /** What is printed for one file: nothing without a match, else the count or the lines. */
  function Report(cfg: Config, file: Path, hits: seq<Hit>): seq<Output> {
    if |hits| > 0 then
      if cfg.count then [Occurrences(file, |hits|)] else [MatchedLines(file, Numbered(hits))]
    else []
  }

  /**
   * A file is reported iff it has a match, in exactly one record: with `-c`
   * the number of matching lines, otherwise the matching lines themselves,
   * numbered from 1 and trimmed.
   */
  lemma ReportShape(cfg: Config, file: Path, hits: seq<Hit>)
    ensures |hits| == 0 <==> Report(cfg, file, hits) == []
    ensures |hits| > 0 ==> |Report(cfg, file, hits)| == 1 && Report(cfg, file, hits)[0].file == file
    ensures |hits| > 0 && cfg.count ==> Report(cfg, file, hits)[0] == Occurrences(file, |hits|)
    ensures |hits| > 0 && !cfg.count ==>
      Report(cfg, file, hits)[0].MatchedLines? &&
      |Report(cfg, file, hits)[0].lines| == |hits| &&
      forall k :: 0 <= k < |hits| ==> Report(cfg, file, hits)[0].lines[k] == (hits[k].index + 1, Trim(hits[k].line))
  {
  }

  /**
   * A line search: the hits of a text. `run` uses `search` or
   * `search_case_insensitive`, as the configuration says; the traversal is
   * written for any line search, so that what it proves about the order of
   * the walk stays apart from what the search does.
   */
  type LineSearch = string -> seq<Hit>

  /** The search `run` selects: case-insensitive under `ignore_case`. */
  function Searcher(cfg: Config): LineSearch {
    (text: string) => if cfg.ignore_case then SearchCaseInsensitive(cfg.query, text) else Search(cfg.query, text)
  }

  /** An output record is what `run` prints for a readable file with at least one hit. */
  ghost predicate IsReportOf(cfg: Config, fs: FileSystem, search: LineSearch, o: Output) {
    o.file in fs.contents && [o] == Report(cfg, o.file, search(fs.contents[o.file]))
  }

  /** Each record is the report of one of `files`. */
  ghost predicate ReportsOf(cfg: Config, fs: FileSystem, search: LineSearch, files: seq<Path>, out: seq<Output>) {
    forall k :: 0 <= k < |out| ==> out[k].file in files && IsReportOf(cfg, fs, search, out[k])
  }

  /** The report of a readable first file is a report of one of the files. */
  lemma FileReportOk(cfg: Config, fs: FileSystem, search: LineSearch, files: seq<Path>)
    requires files != [] && files[0] in fs.contents
    ensures ReportsOf(cfg, fs, search, files, Report(cfg, files[0], search(fs.contents[files[0]])))
  {
    ReportShape(cfg, files[0], search(fs.contents[files[0]]));
  }

  /** Reports of the first file followed by reports of the others are reports of the files. */
  lemma ReportsOfAppend(cfg: Config, fs: FileSystem, search: LineSearch, files: seq<Path>, a: seq<Output>, b: seq<Output>)
    requires files != []
    requires ReportsOf(cfg, fs, search, files, a) && ReportsOf(cfg, fs, search, files[1..], b)
    ensures ReportsOf(cfg, fs, search, files, a + b)
  {
    forall k | |a| <= k < |a + b| ensures (a + b)[k] == b[k - |a|] && b[k - |a|].file in files {
      assert b[k - |a|].file in files[1..];
    }
  }

  /**
   * The `for file_path in current_files` loop: the records printed for the
   * files in order, and the first file that cannot be read, if any (the
   * records of the files before it are printed already).
   */
  function SearchFilesSpec(cfg: Config, fs: FileSystem, search: LineSearch, files: seq<Path>): (r: (seq<Output>, Option<Path>))
    ensures ReportsOf(cfg, fs, search, files, r.0)
    ensures r.1.Some? ==> r.1.value in files && r.1.value !in fs.contents
    ensures r.1.None? ==> forall f :: f in files ==> f in fs.contents
  {
    if files == [] then ([], None)
    else match ReadToString(fs, files[0])
      case None => ([], Some(files[0]))
      case Some(text) =>
        var rest := SearchFilesSpec(cfg, fs, search, files[1..]);
        var here := Report(cfg, files[0], search(text));
        FileReportOk(cfg, fs, search, files);
        ReportsOfAppend(cfg, fs, search, files, here, rest.0);
        (here + rest.0, rest.1)
  }

  /**
   * Completeness of one directory's search: when every file can be read,
   * every file with a hit has a record.
   */
  lemma {:induction false} SearchFilesComplete(cfg: Config, fs: FileSystem, search: LineSearch, files: seq<Path>, f: Path)
    requires SearchFilesSpec(cfg, fs, search, files).1.None?
    requires f in files && |search(fs.contents[f])| > 0
    ensures exists k :: 0 <= k < |SearchFilesSpec(cfg, fs, search, files).0| && SearchFilesSpec(cfg, fs, search, files).0[k].file == f
  {
    var r := SearchFilesSpec(cfg, fs, search, files);
    var here := Report(cfg, files[0], search(fs.contents[files[0]]));
    var rest := SearchFilesSpec(cfg, fs, search, files[1..]);
    assert r.0 == here + rest.0;
    if f == files[0] {
      ReportShape(cfg, f, search(fs.contents[f]));
      assert r.0[0] == here[0] && here[0].file == f;
    } else {
      SearchFilesComplete(cfg, fs, search, files[1..], f);
      var k :| 0 <= k < |rest.0| && rest.0[k].file == f;
      assert r.0[|here| + k] == rest.0[k] && rest.0[k].file == f;
    }
  }

  /** Every record is printed for a readable file with a hit, and for a visible one without `-a`. */
  ghost predicate OutputOk(cfg: Config, fs: FileSystem, search: LineSearch, out: seq<Output>) {
    forall k :: 0 <= k < |out| ==>
      IsReportOf(cfg, fs, search, out[k]) && (cfg.hidden || FindHiddenFiles(out[k].file))
  }

  /** Sound output followed by sound output is sound output. */
  lemma OutputOkAppend(cfg: Config, fs: FileSystem, search: LineSearch, a: seq<Output>, b: seq<Output>)
    requires OutputOk(cfg, fs, search, a) && OutputOk(cfg, fs, search, b)
    ensures OutputOk(cfg, fs, search, a + b)
  {
    forall k | |a| <= k < |a + b| ensures (a + b)[k] == b[k - |a|] { }
  }

  /** A directory that some listing names as a subdirectory. */
  ghost predicate IsListedSubdirectory(fs: FileSystem, p: Path) {
    exists d :: d in fs.listings && p in fs.listings[d].dirs
  }

  /** One pass of the loop's body on the directory `path`. */
  datatype Visit =
    | Unlistable                                       // `list_files(path)` failed
    | Unreadable(output: seq<Output>, file: Path)      // a file failed to read after `output` was printed
    | Listed(output: seq<Output>, dirs: seq<Path>)     // printed `output`; `dirs` go onto the stack

  /**
   * List `path`, filter its entries, search its files: what one pass of
   * the loop prints and pushes.
   */
  function VisitDir(cfg: Config, fs: FileSystem, search: LineSearch, path: Path): (v: Visit)
    ensures v.Unlistable? <==> path !in fs.listings
    ensures !v.Unlistable? ==> OutputOk(cfg, fs, search, v.output)
    ensures !v.Unlistable? ==>
      forall k :: 0 <= k < |v.output| ==> v.output[k].file in Entries(cfg.hidden, fs.listings[path].files)
    ensures v.Unreadable? ==>
      v.file !in fs.contents && v.file in fs.listings[path].files && (cfg.hidden || FindHiddenFiles(v.file))
    ensures v.Listed? ==> v.dirs == Entries(cfg.hidden, fs.listings[path].dirs)
  {
    match ListFiles(fs, path)
    case None => Unlistable
    case Some(listing) =>
      var files := Entries(cfg.hidden, listing.files);
      var searched := SearchFilesSpec(cfg, fs, search, files);
      if searched.1.Some? then Unreadable(searched.0, searched.1.value)
      else Listed(searched.0, Entries(cfg.hidden, listing.dirs))
  }

  /**
   * Completeness of a visit: a directory that is listed and whose files
   * all read has a record for every visible file with a hit.
   */
  lemma VisitComplete(cfg: Config, fs: FileSystem, search: LineSearch, path: Path, f: Path)
    requires VisitDir(cfg, fs, search, path).Listed?
    requires f in fs.listings[path].files && (cfg.hidden || FindHiddenFiles(f))
    ensures f in fs.contents
    ensures |search(fs.contents[f])| > 0 ==>
      exists k :: 0 <= k < |VisitDir(cfg, fs, search, path).output| && VisitDir(cfg, fs, search, path).output[k].file == f
  {
    var files := Entries(cfg.hidden, fs.listings[path].files);
    assert f in files;
    if |search(fs.contents[f])| > 0 {
      SearchFilesComplete(cfg, fs, search, files, f);
    }
  }

  /** The visit of each directory under one configuration, file system and search. */
  function Visitor(cfg: Config, fs: FileSystem, search: LineSearch): Path -> Visit {
    (p: Path) => VisitDir(cfg, fs, search, p)
  }

  /** The part of a run that the loop still has to do, and how it ended. */
  datatype Trace = Trace(output: seq<Output>, visited: seq<Path>, outcome: Outcome)

  /**
   * The loop of `run` from the state (`dir_queue` = `stack`, current
   * `path`), for at most `fuel` passes: visit `path`, push its
   * subdirectories, then stop or pop the last pending directory. The visit
   * of a directory is a parameter, so that the order of the loop can be
   * reasoned about apart from what a visit does.
   */
  function Traverse(visit: Path -> Visit, recursive: bool, stack: seq<Path>, path: Path, fuel: nat): (t: Trace)
    ensures fuel == 0 <==> t.visited == []
    ensures t.visited != [] ==> t.visited[0] == path
    ensures |t.visited| <= fuel
    ensures !recursive ==> |t.visited| <= 1
    decreases fuel
  {
    if fuel == 0 then Trace([], [], OutOfFuel)
    else
      var v := visit(path);
      if v.Unlistable? then Trace([], [path], ListingFailed(path))
      else if v.Unreadable? then Trace(v.output, [path], ReadFailed(v.file))
      else
        var pending := stack + v.dirs;
        if |pending| < 1 || !recursive then Trace(v.output, [path], Completed)
        else
          var rest := Traverse(visit, recursive, pending[..|pending| - 1], pending[|pending| - 1], fuel - 1);
          Trace(v.output + rest.output, [path] + rest.visited, rest.outcome)
  }

  /**
   * A whole run of `run(config)` with the line search `search` (the one
   * `run` uses is `Searcher(cfg)`): the loop from the configured path with
   * an empty stack.
   */
  function RunTrace(cfg: Config, fs: FileSystem, search: LineSearch, fuel: nat): Trace {
    Traverse(Visitor(cfg, fs, search), cfg.recursive, [], cfg.file_path, fuel)
  }

  /** What the visits of `ds` print, one directory after another. */
  function Printed(visit: Path -> Visit, ds: seq<Path>): seq<Output> {
    if ds == [] then []
    else (if visit(ds[0]).Unlistable? then [] else visit(ds[0]).output) + Printed(visit, ds[1..])
  }

  /**
   * The output of the loop is what its visits print, in the order the
   * directories are visited; a visit cut short by an unreadable file
   * contributes the records printed before it.
   */
  lemma {:induction false} TraverseOutput(visit: Path -> Visit, recursive: bool, stack: seq<Path>, path: Path, fuel: nat)
    ensures Traverse(visit, recursive, stack, path, fuel).output == Printed(visit, Traverse(visit, recursive, stack, path, fuel).visited)
    decreases fuel
  {
    var t := Traverse(visit, recursive, stack, path, fuel);
    if fuel > 0 && visit(path).Listed? {
      var pending := stack + visit(path).dirs;
      if |pending| >= 1 && recursive {
        TraverseOutput(visit, recursive, pending[..|pending| - 1], pending[|pending| - 1], fuel - 1);
        assert t.visited[1..] == Traverse(visit, recursive, pending[..|pending| - 1], pending[|pending| - 1], fuel - 1).visited;
      }
    }
  }

  /** Every record of a visit's output is in what the visits of `ds` print, when `d` is one of them. */
  lemma {:induction false} PrintedIncludes(visit: Path -> Visit, ds: seq<Path>, i: nat, o: Output)
    requires i < |ds| && !visit(ds[i]).Unlistable? && o in visit(ds[i]).output
    ensures o in Printed(visit, ds)
  {
    if i > 0 {
      PrintedIncludes(visit, ds[1..], i - 1, o);
    }
  }

  /** Everything the visits of `run` print is sound output. */
  lemma {:induction false} PrintedOk(cfg: Config, fs: FileSystem, search: LineSearch, ds: seq<Path>)
    ensures OutputOk(cfg, fs, search, Printed(Visitor(cfg, fs, search), ds))
  {
    if ds != [] {
      var v := Visitor(cfg, fs, search);
      PrintedOk(cfg, fs, search, ds[1..]);
      assert v(ds[0]) == VisitDir(cfg, fs, search, ds[0]);
      if !v(ds[0]).Unlistable? {
        OutputOkAppend(cfg, fs, search, v(ds[0]).output, Printed(v, ds[1..]));
      }
    }
  }

  /**
   * Soundness of a run: every record printed is the report of a readable
   * file with a hit, and without `-a` that file is not hidden.
   */
  lemma RunPrintsReports(cfg: Config, fs: FileSystem, search: LineSearch, fuel: nat)
    ensures OutputOk(cfg, fs, search, RunTrace(cfg, fs, search, fuel).output)
  {
    var t := RunTrace(cfg, fs, search, fuel);
    TraverseOutput(Visitor(cfg, fs, search), cfg.recursive, [], cfg.file_path, fuel);
    PrintedOk(cfg, fs, search, t.visited);
  }

  /** The file of `o` is one of the filtered files of the listing of some directory in `ds`. */
  ghost predicate FromListingOf(cfg: Config, fs: FileSystem, ds: seq<Path>, o: Output) {
    exists k :: 0 <= k < |ds| && ds[k] in fs.listings && o.file in Entries(cfg.hidden, fs.listings[ds[k]].files)
  }

  /** Every record the visits of `ds` print names a file from the filtered listing of one of them. */
  lemma {:induction false} PrintedFromListings(cfg: Config, fs: FileSystem, search: LineSearch, ds: seq<Path>)
    ensures forall o :: o in Printed(Visitor(cfg, fs, search), ds) ==> FromListingOf(cfg, fs, ds, o)
  {
    if ds != [] {
      var v := Visitor(cfg, fs, search);
      var head := if v(ds[0]).Unlistable? then [] else v(ds[0]).output;
      var tail := Printed(v, ds[1..]);
      PrintedFromListings(cfg, fs, search, ds[1..]);
      assert v(ds[0]) == VisitDir(cfg, fs, search, ds[0]);
      forall o | o in Printed(v, ds) ensures FromListingOf(cfg, fs, ds, o) {
        if o in head {
          var i :| 0 <= i < |head| && head[i] == o;
          assert ds[0] in fs.listings && o.file in Entries(cfg.hidden, fs.listings[ds[0]].files);
        } else {
          assert o in tail;
          var k :| 0 <= k < |ds[1..]| && ds[1..][k] in fs.listings && o.file in Entries(cfg.hidden, fs.listings[ds[1..][k]].files);
          assert ds[k + 1] == ds[1..][k];
        }
      }
    }
  }

  /**
   * A run searches only files it listed: every record printed names a file
   * of the filtered listing of a directory the run entered.
   */
  lemma RunPrintsListedFiles(cfg: Config, fs: FileSystem, search: LineSearch, fuel: nat)
    ensures forall o :: o in RunTrace(cfg, fs, search, fuel).output ==>
      FromListingOf(cfg, fs, RunTrace(cfg, fs, search, fuel).visited, o)
  {
    TraverseOutput(Visitor(cfg, fs, search), cfg.recursive, [], cfg.file_path, fuel);
    PrintedFromListings(cfg, fs, search, RunTrace(cfg, fs, search, fuel).visited);
  }

  /** Without `-r` only the starting directory's own files, filtered, are searched. */
  lemma NonRecursiveRunSearchesStartOnly(cfg: Config, fs: FileSystem, search: LineSearch, fuel: nat)
    requires !cfg.recursive
    ensures forall o :: o in RunTrace(cfg, fs, search, fuel).output ==>
      cfg.file_path in fs.listings && o.file in Entries(cfg.hidden, fs.listings[cfg.file_path].files)
  {
    var t := RunTrace(cfg, fs, search, fuel);
    if fuel > 0 {
      NonRecursiveRunVisitsStartOnly(cfg, fs, search, fuel);
      RunPrintsListedFiles(cfg, fs, search, fuel);
      assert t.visited == [cfg.file_path];
    }
  }

  /**
   * Completeness of a run: in every directory the run lists and searches
   * to the end, every visible file with a hit gets a record.
   */
  lemma RunReportsEveryHit(cfg: Config, fs: FileSystem, search: LineSearch, fuel: nat, i: nat, f: Path)
    requires i < |RunTrace(cfg, fs, search, fuel).visited|
    requires VisitDir(cfg, fs, search, RunTrace(cfg, fs, search, fuel).visited[i]).Listed?
    requires f in fs.listings[RunTrace(cfg, fs, search, fuel).visited[i]].files
    requires cfg.hidden || FindHiddenFiles(f)
    requires f in fs.contents && |search(fs.contents[f])| > 0
    ensures exists o :: o in RunTrace(cfg, fs, search, fuel).output && o.file == f
  {
    var t := RunTrace(cfg, fs, search, fuel);
    var v := Visitor(cfg, fs, search);
    var d := t.visited[i];
    VisitComplete(cfg, fs, search, d, f);
    var k :| 0 <= k < |VisitDir(cfg, fs, search, d).output| && VisitDir(cfg, fs, search, d).output[k].file == f;
    assert v(d) == VisitDir(cfg, fs, search, d);
    PrintedIncludes(v, t.visited, i, v(d).output[k]);
    TraverseOutput(v, cfg.recursive, [], cfg.file_path, fuel);
  }

  /** `p` was pushed by the visit of some directory that was listed. */
  ghost predicate IsPushed(visit: Path -> Visit, p: Path) {
    exists d :: visit(d).Listed? && p in visit(d).dirs
  }

  /** Every directory the loop moves to was pushed by an earlier visit (or was pending already). */
  lemma {:induction false} TraverseEntersPushed(visit: Path -> Visit, recursive: bool, stack: seq<Path>, path: Path, fuel: nat)
    requires forall k :: 0 <= k < |stack| ==> IsPushed(visit, stack[k])
    ensures forall k :: 0 < k < |Traverse(visit, recursive, stack, path, fuel).visited| ==>
      IsPushed(visit, Traverse(visit, recursive, stack, path, fuel).visited[k])
    decreases fuel
  {
    var t := Traverse(visit, recursive, stack, path, fuel);
    if fuel > 0 && visit(path).Listed? {
      var pending := stack + visit(path).dirs;
      if |pending| >= 1 && recursive {
        forall k | 0 <= k < |pending| ensures IsPushed(visit, pending[k]) {
          if k >= |stack| { assert pending[k] in visit(path).dirs; }
        }
        var rest := Traverse(visit, recursive, pending[..|pending| - 1], pending[|pending| - 1], fuel - 1);
        TraverseEntersPushed(visit, recursive, pending[..|pending| - 1], pending[|pending| - 1], fuel - 1);
        forall k | 0 < k < |t.visited| ensures IsPushed(visit, t.visited[k]) {
          assert t.visited[k] == rest.visited[k - 1];
          if k == 1 {
            assert rest.visited[0] == pending[|pending| - 1];
          } else {
            assert IsPushed(visit, rest.visited[k - 1]);
          }
        }
      }
    }
  }

  /**
   * `vs[k]` was pending at the start, or was pushed by the visit of a
   * directory entered before it, `vs[j]` with `j < k`.
   */
  ghost predicate PushedBefore(visit: Path -> Visit, stack: seq<Path>, vs: seq<Path>, k: nat)
    requires k < |vs|
  {
    vs[k] in stack || exists j :: 0 <= j < k && visit(vs[j]).Listed? && vs[k] in visit(vs[j]).dirs
  }

  /** Every directory the loop moves to was pending at the start or pushed by a directory entered earlier. */
  lemma {:induction false} TraverseEntersPushedEarlier(visit: Path -> Visit, recursive: bool, stack: seq<Path>, path: Path, fuel: nat)
    ensures forall k :: 0 < k < |Traverse(visit, recursive, stack, path, fuel).visited| ==>
      PushedBefore(visit, stack, Traverse(visit, recursive, stack, path, fuel).visited, k)
    decreases fuel
  {
    var t := Traverse(visit, recursive, stack, path, fuel);
    if fuel > 0 && visit(path).Listed? {
      var dirs := visit(path).dirs;
      var pending := stack + dirs;
      if |pending| >= 1 && recursive {
        var stack', path' := pending[..|pending| - 1], pending[|pending| - 1];
        var rest := Traverse(visit, recursive, stack', path', fuel - 1);
        TraverseEntersPushedEarlier(visit, recursive, stack', path', fuel - 1);
        assert t.visited == [path] + rest.visited;
        forall k | 0 < k < |t.visited| ensures PushedBefore(visit, stack, t.visited, k) {
          var d := t.visited[k];
          assert d == rest.visited[k - 1];
          if k == 1 || d in stack' {
            assert d in pending;
            if d !in stack {
              assert d in dirs && t.visited[0] == path;
            }
          } else {
            assert PushedBefore(visit, stack', rest.visited, k - 1);
            var j :| 0 <= j < k - 1 && visit(rest.visited[j]).Listed? && d in visit(rest.visited[j]).dirs;
            assert rest.visited[j] == t.visited[j + 1];
          }
        }
      }
    }
  }

  /** What a visit of `run` pushes is a subdirectory from a listing that passed the hidden filter. */
  lemma PushedByVisitor(cfg: Config, fs: FileSystem, search: LineSearch, p: Path)
    requires IsPushed(Visitor(cfg, fs, search), p)
    ensures IsListedSubdirectory(fs, p) && (cfg.hidden || FindHiddenFiles(p))
  {
    var d :| Visitor(cfg, fs, search)(d).Listed? && p in Visitor(cfg, fs, search)(d).dirs;
    assert Visitor(cfg, fs, search)(d) == VisitDir(cfg, fs, search, d);
  }

  /**
   * A run enters, after its starting path, only directories that some
   * listing names as subdirectories, and without `-a` never a hidden one;
   * each is a filtered subdirectory of a directory the run entered before.
   */
  lemma RunEntersListedSubdirectories(cfg: Config, fs: FileSystem, search: LineSearch, fuel: nat)
    ensures forall k :: 0 < k < |RunTrace(cfg, fs, search, fuel).visited| ==>
      var d := RunTrace(cfg, fs, search, fuel).visited[k];
      IsListedSubdirectory(fs, d) && (cfg.hidden || FindHiddenFiles(d))
    ensures forall k :: 0 < k < |RunTrace(cfg, fs, search, fuel).visited| ==>
      var vs := RunTrace(cfg, fs, search, fuel).visited;
      exists j :: 0 <= j < k && vs[j] in fs.listings && vs[k] in Entries(cfg.hidden, fs.listings[vs[j]].dirs)
  {
    var t := RunTrace(cfg, fs, search, fuel);
    var v := Visitor(cfg, fs, search);
    TraverseEntersPushed(v, cfg.recursive, [], cfg.file_path, fuel);
    TraverseEntersPushedEarlier(v, cfg.recursive, [], cfg.file_path, fuel);
    forall k | 0 < k < |t.visited|
      ensures exists j :: 0 <= j < k && t.visited[j] in fs.listings && t.visited[k] in Entries(cfg.hidden, fs.listings[t.visited[j]].dirs)
    {
      assert PushedBefore(v, [], t.visited, k);
      var j :| 0 <= j < k && v(t.visited[j]).Listed? && t.visited[k] in v(t.visited[j]).dirs;
      assert v(t.visited[j]) == VisitDir(cfg, fs, search, t.visited[j]);
    }
    forall k | 0 < k < |t.visited|
      ensures IsListedSubdirectory(fs, t.visited[k]) && (cfg.hidden || FindHiddenFiles(t.visited[k]))
    {
      PushedByVisitor(cfg, fs, search, t.visited[k]);
    }
  }

  /** Every directory the loop leaves for another was listed and searched to the end. */
  lemma {:induction false} TraversePrefixListed(visit: Path -> Visit, recursive: bool, stack: seq<Path>, path: Path, fuel: nat)
    ensures forall k :: 0 <= k < |Traverse(visit, recursive, stack, path, fuel).visited| - 1 ==>
      visit(Traverse(visit, recursive, stack, path, fuel).visited[k]).Listed?
    decreases fuel
  {
    var t := Traverse(visit, recursive, stack, path, fuel);
    if fuel > 0 && visit(path).Listed? {
      var pending := stack + visit(path).dirs;
      if |pending| >= 1 && recursive {
        var rest := Traverse(visit, recursive, pending[..|pending| - 1], pending[|pending| - 1], fuel - 1);
        TraversePrefixListed(visit, recursive, pending[..|pending| - 1], pending[|pending| - 1], fuel - 1);
        forall k | 0 < k < |t.visited| - 1 ensures visit(t.visited[k]).Listed? {
          assert t.visited[k] == rest.visited[k - 1];
        }
      }
    }
  }

  /** Running out of fuel means that `fuel` passes were made; any other ending made at least one. */
  lemma {:induction false} TraverseFuelUse(visit: Path -> Visit, recursive: bool, stack: seq<Path>, path: Path, fuel: nat)
    ensures var t := Traverse(visit, recursive, stack, path, fuel);
      (t.outcome.OutOfFuel? ==> |t.visited| == fuel) && (!t.outcome.OutOfFuel? ==> t.visited != [])
    decreases fuel
  {
    if fuel > 0 && visit(path).Listed? {
      var pending := stack + visit(path).dirs;
      if |pending| >= 1 && recursive {
        TraverseFuelUse(visit, recursive, pending[..|pending| - 1], pending[|pending| - 1], fuel - 1);
      }
    }
  }

  /**
   * How the loop ends: a listing failure or a read failure is the last
   * visit's, and a completed loop's last visit was listed.
   */
  lemma {:induction false} TraverseOutcome(visit: Path -> Visit, recursive: bool, stack: seq<Path>, path: Path, fuel: nat)
    ensures var t := Traverse(visit, recursive, stack, path, fuel);
      && (!t.outcome.OutOfFuel? ==> t.visited != [])
      && (t.outcome.ListingFailed? ==>
            t.outcome.dir == t.visited[|t.visited| - 1] && visit(t.outcome.dir).Unlistable?)
      && (t.outcome.ReadFailed? ==>
            visit(t.visited[|t.visited| - 1]).Unreadable? && visit(t.visited[|t.visited| - 1]).file == t.outcome.file)
      && (t.outcome.Completed? ==> visit(t.visited[|t.visited| - 1]).Listed?)
    decreases fuel
  {
    if fuel > 0 && visit(path).Listed? {
      var pending := stack + visit(path).dirs;
      if |pending| >= 1 && recursive {
        var rest := Traverse(visit, recursive, pending[..|pending| - 1], pending[|pending| - 1], fuel - 1);
        TraverseOutcome(visit, recursive, pending[..|pending| - 1], pending[|pending| - 1], fuel - 1);
        if rest.visited != [] {
          LastOfAppend([path], rest.visited);
        }
      }
    }
  }

  /**
   * The loop repeats until the stack is empty: a recursive loop that
   * completes has entered every pending directory and every directory that
   * one of its visits pushed, and every directory it entered was listed.
   */
  lemma {:induction false} TraverseCompletes(visit: Path -> Visit, stack: seq<Path>, path: Path, fuel: nat)
    ensures var t := Traverse(visit, true, stack, path, fuel);
      t.outcome.Completed? ==>
        && (forall d :: d in stack ==> d in t.visited)
        && (forall k :: 0 <= k < |t.visited| ==>
              visit(t.visited[k]).Listed? && forall d :: d in visit(t.visited[k]).dirs ==> d in t.visited)
    decreases fuel
  {
    var t := Traverse(visit, true, stack, path, fuel);
    if fuel > 0 && visit(path).Listed? {
      var pending := stack + visit(path).dirs;
      if |pending| >= 1 {
        var stack', path' := pending[..|pending| - 1], pending[|pending| - 1];
        var rest := Traverse(visit, true, stack', path', fuel - 1);
        TraverseCompletes(visit, stack', path', fuel - 1);
        if t.outcome.Completed? {
          assert rest.visited != [] && rest.visited[0] == path';
          assert t.visited == [path] + rest.visited;
          forall d | d in pending ensures d in t.visited {
            if d != path' {
              assert d in stack';
            }
          }
          forall k | 0 < k < |t.visited|
            ensures visit(t.visited[k]).Listed? && forall d :: d in visit(t.visited[k]).dirs ==> d in t.visited
          {
            assert t.visited[k] == rest.visited[k - 1];
          }
        }
      }
    }
  }


  /**
   * What `list_files` and `read_to_string` say about a visit: a failed
   * listing is a missing directory, and a failed read is a file of the
   * listing, missing from the file system, visible unless `-a` was given.
   */
  ghost predicate FailuresExplained(cfg: Config, fs: FileSystem, visit: Path -> Visit) {
    forall p ::
      && (visit(p).Unlistable? <==> p !in fs.listings)
      && (visit(p).Unreadable? ==>
            && visit(p).file !in fs.contents
            && visit(p).file in fs.listings[p].files
            && (cfg.hidden || FindHiddenFiles(visit(p).file)))
  }

  /** The visits of `run` fail only as `list_files` and `read_to_string` say. */
  lemma VisitorFailuresExplained(cfg: Config, fs: FileSystem, search: LineSearch)
    ensures FailuresExplained(cfg, fs, Visitor(cfg, fs, search))
  {
    forall p ensures Visitor(cfg, fs, search)(p) == VisitDir(cfg, fs, search, p) { }
  }

  /**
   * A file that cannot be read ends the run with that file as its error; it
   * is a file of the last directory entered, visible unless `-a` was given.
   * A directory that cannot be listed ends the run silently: it is the last
   * directory entered, every directory before it was listed, and the run
   * still returns `Ok`.
   */
  lemma TraverseFailures(cfg: Config, fs: FileSystem, visit: Path -> Visit, recursive: bool, path: Path, fuel: nat)
    requires FailuresExplained(cfg, fs, visit)
    ensures var t := Traverse(visit, recursive, [], path, fuel);
      && (t.outcome.ReadFailed? ==>
            && t.outcome.file !in fs.contents
            && t.visited[|t.visited| - 1] in fs.listings
            && t.outcome.file in fs.listings[t.visited[|t.visited| - 1]].files
            && (cfg.hidden || FindHiddenFiles(t.outcome.file)))
      && (t.outcome.ListingFailed? ==>
            && t.outcome.dir == t.visited[|t.visited| - 1]
            && t.outcome.dir !in fs.listings
            && (forall k :: 0 <= k < |t.visited| - 1 ==> t.visited[k] in fs.listings)
            && RunResult(t.outcome) == Success(()))
  {
    var t := Traverse(visit, recursive, [], path, fuel);
    TraverseOutcome(visit, recursive, [], path, fuel);
    TraversePrefixListed(visit, recursive, [], path, fuel);
    if t.outcome.ListingFailed? {
      forall k | 0 <= k < |t.visited| - 1 ensures t.visited[k] in fs.listings {
        assert visit(t.visited[k]).Listed?;
      }
    }
  }

  /** `TraverseFailures` for the run itself. */
  lemma RunFailures(cfg: Config, fs: FileSystem, search: LineSearch, fuel: nat)
    ensures var t := RunTrace(cfg, fs, search, fuel);
      && (t.outcome.ReadFailed? ==>
            && t.outcome.file !in fs.contents
            && t.visited[|t.visited| - 1] in fs.listings
            && t.outcome.file in fs.listings[t.visited[|t.visited| - 1]].files
            && (cfg.hidden || FindHiddenFiles(t.outcome.file)))
      && (t.outcome.ListingFailed? ==>
            && t.outcome.dir == t.visited[|t.visited| - 1]
            && t.outcome.dir !in fs.listings
            && (forall k :: 0 <= k < |t.visited| - 1 ==> t.visited[k] in fs.listings)
            && RunResult(t.outcome) == Success(()))
  {
    VisitorFailuresExplained(cfg, fs, search);
    TraverseFailures(cfg, fs, Visitor(cfg, fs, search), cfg.recursive, cfg.file_path, fuel);
  }

  /**
   * Completeness of a recursive run: when it ends with nothing left on the
   * stack, every directory it entered was listed, and every subdirectory
   * that passed the hidden filter in those listings was entered too.
   */
  lemma RunCompletes(cfg: Config, fs: FileSystem, search: LineSearch, fuel: nat)
    ensures var t := RunTrace(cfg, fs, search, fuel);
      cfg.recursive && t.outcome.Completed? ==>
        forall k :: 0 <= k < |t.visited| ==>
          t.visited[k] in fs.listings &&
          forall d :: d in Entries(cfg.hidden, fs.listings[t.visited[k]].dirs) ==> d in t.visited
  {
    var visit := Visitor(cfg, fs, search);
    var t := RunTrace(cfg, fs, search, fuel);
    if cfg.recursive && t.outcome.Completed? {
      TraverseCompletes(visit, [], cfg.file_path, fuel);
      forall k | 0 <= k < |t.visited|
        ensures t.visited[k] in fs.listings
        ensures forall d :: d in Entries(cfg.hidden, fs.listings[t.visited[k]].dirs) ==> d in t.visited
      {
        assert visit(t.visited[k]) == VisitDir(cfg, fs, search, t.visited[k]);
      }
    }
  }

  /**
   * Every file a listing names has passed `is_utf8_file`, so it was read
   * once already; a run whose reads agree with that never fails.
   */
  lemma RunSucceedsWhenFilesRead(cfg: Config, fs: FileSystem, search: LineSearch, fuel: nat)
    requires forall d, f :: d in fs.listings && f in fs.listings[d].files ==> f in fs.contents
    ensures RunResult(RunTrace(cfg, fs, search, fuel).outcome) == Success(())
  {
    RunFailures(cfg, fs, search, fuel);
  }

  /** Without `-r` only the starting path is listed and searched. */
  lemma NonRecursiveRunVisitsStartOnly(cfg: Config, fs: FileSystem, search: LineSearch, fuel: nat)
    requires !cfg.recursive && fuel > 0
    ensures RunTrace(cfg, fs, search, fuel).visited == [cfg.file_path]
    ensures !RunTrace(cfg, fs, search, fuel).outcome.OutOfFuel?
  {
    TraverseOutcome(Visitor(cfg, fs, search), cfg.recursive, [], cfg.file_path, fuel);
  }

  /**
   * `dir_queue.pop()` takes the last entry: after a directory whose listing
   * is pushed, the next one entered is the last subdirectory it pushed,
   * or, if it pushed none, the most recently pushed pending one.
   */
  lemma NextIsLastPushed(visit: Path -> Visit, stack: seq<Path>, path: Path, fuel: nat)
    requires fuel >= 2 && visit(path).Listed? && |stack + visit(path).dirs| > 0
    ensures |Traverse(visit, true, stack, path, fuel).visited| >= 2
    ensures Traverse(visit, true, stack, path, fuel).visited[1] ==
      if visit(path).dirs != [] then visit(path).dirs[|visit(path).dirs| - 1] else stack[|stack| - 1]
  {
    var pending := stack + visit(path).dirs;
    var rest := Traverse(visit, true, pending[..|pending| - 1], pending[|pending| - 1], fuel - 1);
    assert Traverse(visit, true, stack, path, fuel).visited == [path] + rest.visited;
  }

  /**
   * Depth first, last listed first: a root listing `a` then `b`, neither of
   * which has subdirectories, is searched in the order root, `b`, `a`.
   */
  lemma SiblingsInReverseOrder(visit: Path -> Visit, root: Path, a: Path, b: Path)
    requires visit(root).Listed? && visit(root).dirs == [a, b]
    requires visit(a).Listed? && visit(a).dirs == []
    requires visit(b).Listed? && visit(b).dirs == []
    ensures Traverse(visit, true, [], root, 3) ==
      Trace(visit(root).output + visit(b).output + visit(a).output, [root, b, a], Completed)
  {
    assert ([] + [a, b])[..1] == [a];
    assert [a][..0] == [];
    var tb := Traverse(visit, true, [a], b, 2);
    assert tb == Trace(visit(b).output + visit(a).output, [b, a], Completed) by {
      assert [a] + visit(b).dirs == [a];
      assert Traverse(visit, true, [], a, 1) == Trace(visit(a).output, [a], Completed);
    }
  }

  /**
   * A directory that cannot be listed stops the loop even with directories
   * still pending: `a`, listed before `b`, is never entered.
   */
  lemma ListingFailureAbandonsPending(visit: Path -> Visit, root: Path, a: Path, b: Path, fuel: nat)
    requires fuel >= 2
    requires visit(root).Listed? && visit(root).dirs == [a, b]
    requires visit(b).Unlistable?
    ensures Traverse(visit, true, [], root, fuel) ==
      Trace(visit(root).output, [root, b], ListingFailed(b))
  {
    assert ([] + [a, b])[..1] == [a];
  }

  /**
   * One file's printing: nothing without a hit; with `-c` the count and
   * `continue`; otherwise the `for (index, line) in results` loop, one
   * numbered line per hit.
   */
  method PrintResults(cfg: Config, file: Path, results: seq<Hit>) returns (printed: seq<Output>)
    ensures printed == Report(cfg, file, results)
  {
    if |results| > 0 {
      if cfg.count {
        return [Occurrences(file, |results|)];
      }
      var lines: seq<(nat, string)> := [];
      var j := 0;
      while j < |results|
        invariant 0 <= j <= |results|
        invariant lines == Numbered(results[..j])
      {
        lines := lines + [(results[j].index + 1, Trim(results[j].line))];
        TakeOneMore(results, j);
        NumberedAppend(results[..j], results[j]);
        j := j + 1;
      }
      TakeAll(results);
      return [MatchedLines(file, lines)];
    }
    return [];
  }

  /** One more hit adds one more numbered, trimmed line at the end. */
  lemma {:induction false} NumberedAppend(hits: seq<Hit>, h: Hit)
    ensures Numbered(hits + [h]) == Numbered(hits) + [(h.index + 1, Trim(h.line))]
  {
    if hits != [] {
      assert (hits + [h])[1..] == hits[1..] + [h];
      NumberedAppend(hits[1..], h);
    }
  }

  /** One pass of the file loop: a readable file appends its report to what was printed. */
  lemma SearchFilesAdvance(cfg: Config, fs: FileSystem, search: LineSearch, files: seq<Path>, i: nat,
                           out: seq<Output>, printed: seq<Output>)
    requires i < |files| && files[i] in fs.contents
    requires printed == Report(cfg, files[i], search(fs.contents[files[i]]))
    requires SearchFilesSpec(cfg, fs, search, files) ==
      (out + SearchFilesSpec(cfg, fs, search, files[i..]).0, SearchFilesSpec(cfg, fs, search, files[i..]).1)
    ensures SearchFilesSpec(cfg, fs, search, files) ==
      ((out + printed) + SearchFilesSpec(cfg, fs, search, files[i + 1..]).0, SearchFilesSpec(cfg, fs, search, files[i + 1..]).1)
  {
    assert files[i..][1..] == files[i + 1..];
    var later := SearchFilesSpec(cfg, fs, search, files[i + 1..]);
    assert SearchFilesSpec(cfg, fs, search, files[i..]) == (printed + later.0, later.1);
    assert out + (printed + later.0) == (out + printed) + later.0;
  }

  /** The file loop stops at the first file that cannot be read, adding nothing. */
  lemma SearchFilesStop(cfg: Config, fs: FileSystem, search: LineSearch, files: seq<Path>, i: nat)
    requires i < |files| && files[i] !in fs.contents
    ensures SearchFilesSpec(cfg, fs, search, files[i..]) == ([], Some(files[i]))
  {
  }

  /**
   * The `for file_path in current_files` loop of `run`, with `?` on each
   * read: the records of the files up to the first one that cannot be
   * read, and that file.
   */
  method SearchFiles(cfg: Config, fs: FileSystem, search: LineSearch, files: seq<Path>)
    returns (out: seq<Output>, failed: Option<Path>)
    ensures (out, failed) == SearchFilesSpec(cfg, fs, search, files)
  {
    out := [];
    var i := 0;
    assert files[0..] == files;
    assert out + SearchFilesSpec(cfg, fs, search, files).0 == SearchFilesSpec(cfg, fs, search, files).0;
    while i < |files|
      invariant 0 <= i <= |files|
      invariant SearchFilesSpec(cfg, fs, search, files) ==
        (out + SearchFilesSpec(cfg, fs, search, files[i..]).0, SearchFilesSpec(cfg, fs, search, files[i..]).1)
    {
      var contents := ReadToString(fs, files[i]);
      if contents.None? {
        SearchFilesStop(cfg, fs, search, files, i);
        assert out + [] == out;
        return out, Some(files[i]);
      }
      var printed := PrintResults(cfg, files[i], search(contents.value));
      SearchFilesAdvance(cfg, fs, search, files, i, out, printed);
      out := out + printed;
      i := i + 1;
    }
    assert files[i..] == [];
    assert SearchFilesSpec(cfg, fs, search, files[i..]) == ([], None);
    assert out + [] == out;
    failed := None;
  }

  /**
   * The body of `run`'s loop up to the stack update: list `path`, drop the
   * hidden entries unless they are asked for, and search the files.
   */
  method VisitPath(cfg: Config, fs: FileSystem, search: LineSearch, path: Path) returns (v: Visit)
    ensures v == Visitor(cfg, fs, search)(path)
  {
    var listing := ListFiles(fs, path);
    if listing.None? {
      return Unlistable;
    }
    var dirs := Entries(cfg.hidden, listing.value.dirs);
    var currentFiles := Entries(cfg.hidden, listing.value.files);
    var printed, failed := SearchFiles(cfg, fs, search, currentFiles);
    if failed.Some? {
      return Unreadable(printed, failed.value);
    }
    return Listed(printed, dirs);
  }

  /**
   * `whole` is what has been printed, `out`, followed by the rest of the
   * loop from `path` with `stack` pending and `fuel` passes left.
   */
  ghost predicate Resumes(visit: Path -> Visit, recursive: bool, whole: Trace, out: seq<Output>,
                          stack: seq<Path>, path: Path, fuel: nat) {
    var rest := Traverse(visit, recursive, stack, path, fuel);
    whole.output == out + rest.output && whole.outcome == rest.outcome
  }

  /**
   * One pass of `run`'s loop that neither stops nor fails: what remains of
   * the trace continues from the directory popped off the extended stack.
   */
  lemma TraverseAdvance(visit: Path -> Visit, recursive: bool, stack: seq<Path>, path: Path, fuel: nat,
                        out: seq<Output>, printed: seq<Output>, dirs: seq<Path>, whole: Trace,
                        stack': seq<Path>, path': Path, out': seq<Output>)
    requires 0 < fuel && visit(path) == Listed(printed, dirs) && recursive
    requires |stack + dirs| > 0 && out' == out + printed
    requires stack' == (stack + dirs)[..|stack + dirs| - 1] && path' == (stack + dirs)[|stack + dirs| - 1]
    requires Resumes(visit, recursive, whole, out, stack, path, fuel)
    ensures Resumes(visit, recursive, whole, out', stack', path', fuel - 1)
  {
    var rest := Traverse(visit, recursive, stack', path', fuel - 1);
    assert Traverse(visit, recursive, stack, path, fuel).output == printed + rest.output;
    assert out + (printed + rest.output) == out' + rest.output;
  }

  /**
   * The passes on which `run`'s loop ends: out of passes, an unlistable
   * directory, an unreadable file, or nothing left to enter. In each case
   * `whole` is what was printed before plus this visit's records.
   */
  lemma TraverseOutOfPasses(visit: Path -> Visit, recursive: bool, stack: seq<Path>, path: Path,
                            out: seq<Output>, whole: Trace)
    requires Resumes(visit, recursive, whole, out, stack, path, 0)
    ensures whole.output == out && RunResult(whole.outcome) == Success(())
  {
    assert out + [] == out;
  }

  /** A directory that cannot be listed ends the loop with `Ok` and nothing more printed. */
  lemma TraverseUnlistable(visit: Path -> Visit, recursive: bool, stack: seq<Path>, path: Path, fuel: nat,
                           out: seq<Output>, whole: Trace)
    requires 0 < fuel && visit(path) == Unlistable
    requires Resumes(visit, recursive, whole, out, stack, path, fuel)
    ensures whole.output == out && RunResult(whole.outcome) == Success(())
  {
    assert out + [] == out;
  }

  /** A file that cannot be read ends the loop with that file as the error. */
  lemma TraverseUnreadable(visit: Path -> Visit, recursive: bool, stack: seq<Path>, path: Path, fuel: nat,
                           out: seq<Output>, printed: seq<Output>, file: Path, whole: Trace)
    requires 0 < fuel && visit(path) == Unreadable(printed, file)
    requires Resumes(visit, recursive, whole, out, stack, path, fuel)
    ensures whole.output == out + printed && RunResult(whole.outcome) == Failure(file)
  {
  }

  /** An empty stack, or a run without `-r`, ends the loop with `Ok` after this pass. */
  lemma TraverseDone(visit: Path -> Visit, recursive: bool, stack: seq<Path>, path: Path, fuel: nat,
                     out: seq<Output>, printed: seq<Output>, dirs: seq<Path>, whole: Trace)
    requires 0 < fuel && visit(path) == Listed(printed, dirs) && (|stack + dirs| < 1 || !recursive)
    requires Resumes(visit, recursive, whole, out, stack, path, fuel)
    ensures whole.output == out + printed && RunResult(whole.outcome) == Success(())
  {
  }

  /**
   * `run`'s worklist loop over `dir_queue`, from `start`, with `visit` as
   * the body's listing and file searching and at most `fuel` passes. Its
   * output and its result are those of `Traverse`.
   */
  method RunLoop(visit: Path -> Visit, recursive: bool, start: Path, fuel: nat)
    returns (output: seq<Output>, result: Result<(), Path>)
    ensures output == Traverse(visit, recursive, [], start, fuel).output
    ensures result == RunResult(Traverse(visit, recursive, [], start, fuel).outcome)
  {
    ghost var whole := Traverse(visit, recursive, [], start, fuel);
    var dirQueue: seq<Path> := [];
    var path := start;
    var left: nat := fuel;
    output := [];
    assert output + whole.output == whole.output;
    while true
      invariant Resumes(visit, recursive, whole, output, dirQueue, path, left)
      decreases left
    {
      if left == 0 {
        TraverseOutOfPasses(visit, recursive, dirQueue, path, output, whole);
        return output, Success(());
      }
      var v := visit(path);
      match v
      case Unlistable =>
        TraverseUnlistable(visit, recursive, dirQueue, path, left, output, whole);
        return output, Success(());
      case Unreadable(printed, file) =>
        TraverseUnreadable(visit, recursive, dirQueue, path, left, output, printed, file, whole);
        return output + printed, Failure(file);
      case Listed(printed, dirs) =>
        var pending := dirQueue + dirs;
        if |pending| < 1 || !recursive {
          TraverseDone(visit, recursive, dirQueue, path, left, output, printed, dirs, whole);
          return output + printed, Success(());
        }
        ghost var queue0, path0, left0, output0 := dirQueue, path, left, output;
        output := output + printed;
        path := pending[|pending| - 1];
        dirQueue := pending[..|pending| - 1];
        left := left - 1;
        TraverseAdvance(visit, recursive, queue0, path0, left0, output0, printed, dirs, whole,
                        dirQueue, path, output);
    }
  }

  /**
   * `run` itself: the loop from the configured path, each pass listing the
   * directory, dropping hidden entries unless asked for them, and searching
   * the files with `search` or `search_case_insensitive` as configured.
   */
  method Run(cfg: Config, fs: FileSystem, fuel: nat) returns (output: seq<Output>, result: Result<(), Path>)
    ensures output == RunTrace(cfg, fs, Searcher(cfg), fuel).output
    ensures result == RunResult(RunTrace(cfg, fs, Searcher(cfg), fuel).outcome)
  {
    output, result := RunLoop(Visitor(cfg, fs, Searcher(cfg)), cfg.recursive, cfg.file_path, fuel);
  }
}
