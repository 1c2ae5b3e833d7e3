/**
 * The argument parser `Config::build` of src/lib.rs. The process
 * environment is not visible here: whether the variable IGNORE_CASE is set
 * is passed in as `envPresent`.
 */
module Configuration {
  import opened Wrappers

  /** `Config`: what one run searches for, where, and how. */
  datatype Config = Config(
    query: string,
    file_path: string,
    ignore_case: bool,
    recursive: bool,
    hidden: bool,
    count: bool)

  /** `Config::default()`. */
  const Default := Config("", "", false, false, false, false)

  const NotEnoughArguments := "not enough arguments"
  const MissingQuery := "Missing query argument"
  const MissingFilePath := "Missing file path argument"
  const UnknownFlag := "Unknown flag or parameter"

  /** The four flags `build` accepts after the path. */
  predicate IsFlag(arg: string) {
    arg == "-i" || arg == "-r" || arg == "-a" || arg == "-c"
  }

  /**
   * `Config::build`: `args[0]` is the program name, `args[1]` the query,
   * `args[2]` the path, and every later argument one of the four flags, in
   * any order and any number of times. The `-i` flag is overwritten by the
   * environment: `ignore_case` ends up as `envPresent` whatever the flags.
   */
  method Build(args: seq<string>, envPresent: bool) returns (r: Result<Config, string>)
    ensures |args| < 3 <==> r == Failure(NotEnoughArguments)
    ensures |args| >= 3 ==> (r.Success? <==> forall k :: 3 <= k < |args| ==> IsFlag(args[k]))
    ensures |args| >= 3 && r.Failure? ==> r.error == UnknownFlag
    ensures r.Success? ==> r.value == Config(
      args[1], args[2], envPresent, "-r" in args[3..], "-a" in args[3..], "-c" in args[3..])
  {
    if |args| < 3 {
      return Failure(NotEnoughArguments);
    }
    // args_iter.next() skips the program name
    var next := 1;
    if next >= |args| {
      return Failure(MissingQuery);
    }
    var query := args[next];
    next := next + 1;
    if next >= |args| {
      return Failure(MissingFilePath);
    }
    var filePath := args[next];
    next := next + 1;

    var config := Default;
    while next < |args|
      invariant 3 <= next <= |args|
      invariant forall k :: 3 <= k < next ==> IsFlag(args[k])
      invariant config.query == "" && config.file_path == ""
      invariant config.recursive == ("-r" in args[3..next])
      invariant config.hidden == ("-a" in args[3..next])
      invariant config.count == ("-c" in args[3..next])
    {
      var arg := args[next];
      assert args[3..next + 1] == args[3..next] + [arg];
      match arg {
        case "-i" => config := config.(ignore_case := true);
        case "-r" => config := config.(recursive := true);
        case "-a" => config := config.(hidden := true);
        case "-c" => config := config.(count := true);
        case _ => return Failure(UnknownFlag);
      }
      next := next + 1;
    }
    assert args[3..next] == args[3..];

    var ignoreCase := envPresent;
    config := config.(query := query, file_path := filePath, ignore_case := ignoreCase);
    return Success(config);
  }
}
