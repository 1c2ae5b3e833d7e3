/**
 * The hidden-entry predicate `find_hidden_files` of src/lib.rs. Despite its
 * name it answers "is this entry visible?": it is false exactly for a path
 * whose last '/'-separated piece is non-empty and starts with '.'.
 */
module HiddenFilter {
  import opened Text

  type Path = string

  /** `find_hidden_files`: true means visible, false means hidden. */
  function FindHiddenFiles(input: Path): (visible: bool)
  {
    var parts := Split(input, '/');
    if |parts| > 0 then
      var lastPart := parts[|parts| - 1];
      !(lastPart != [] && lastPart[0] == '.')
    else
      // `parts.last()` is never `None`: a split always has a piece.
      false
  }

  /**
   * Reference definition: with `j` the start of the text after the last '/',
   * the entry is hidden exactly when that text is non-empty and starts with '.'.
   */
  lemma HiddenIffDotAfterLastSlash(input: Path, j: int)
    requires IsLastPieceStart(input, '/', j)
    ensures !FindHiddenFiles(input) <==> j < |input| && input[j] == '.'
  {
    LastPiece(input, '/', j);
  }

  /** A path ending in '/' has an empty last piece and counts as visible. */
  lemma TrailingSlashIsVisible(input: Path)
    requires input != [] && input[|input| - 1] == '/'
    ensures FindHiddenFiles(input)
  {
    HiddenIffDotAfterLastSlash(input, |input|);
  }

  /** The empty path counts as visible. */
  lemma EmptyPathIsVisible()
    ensures FindHiddenFiles("")
  {
    HiddenIffDotAfterLastSlash("", 0);
  }

  /** Only the last piece matters: a hidden parent directory does not hide its entries. */
  lemma OnlyLastPieceMatters(dir: Path, name: Path)
    requires '/' !in name
    ensures FindHiddenFiles(dir + "/" + name) == FindHiddenFiles(name)
  {
    var p := dir + "/" + name;
    assert p[|dir| + 1..] == name;
    HiddenIffDotAfterLastSlash(p, |dir| + 1);
    HiddenIffDotAfterLastSlash(name, 0);
  }

  /** `.git` and paths ending in it are hidden. */
  lemma GitIsHidden()
    ensures !FindHiddenFiles(".git") && !FindHiddenFiles("src/.git")
  {
    HiddenIffDotAfterLastSlash(".git", 0);
    HiddenIffDotAfterLastSlash("src/.git", 4);
  }

  /**
   * An entry `dir/name` is hidden exactly when its own name starts with '.',
   * whatever the directory: `.git/config` is visible, `src/.git` is not.
   */
  lemma NameDecides(dir: Path, name: Path)
    requires '/' !in name
    ensures !FindHiddenFiles(dir + "/" + name) <==> name != [] && name[0] == '.'
  {
    HiddenIffDotAfterLastSlash(name, 0);
    OnlyLastPieceMatters(dir, name);
  }
}
