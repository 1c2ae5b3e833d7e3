/**
 * The line matcher: `search` and `search_case_insensitive` of src/lib.rs.
 * Both number the lines of a text from 0 and keep, in file order, the
 * (index, line) pairs whose line holds the query.
 */
module Matcher {
  import opened Text

  /** One match: the 0-based index of the line and the line itself, as it is in the text. */
  datatype Hit = Hit(index: nat, line: string)

  /**
   * `r` lists exactly the lines of `ls` that `keep` accepts, each with its
   * index, in increasing index order.
   */
  ghost predicate IsExactSelection(r: seq<Hit>, ls: seq<string>, keep: string -> bool) {
    && (forall k :: 0 <= k < |r| ==> r[k].index < |ls| && r[k].line == ls[r[k].index] && keep(r[k].line))
    && (forall k, j :: 0 <= k < j < |r| ==> r[k].index < r[j].index)
    && (forall i :: 0 <= i < |ls| && keep(ls[i]) ==> exists k :: 0 <= k < |r| && r[k].index == i)
  }

  /** `lines.enumerate().filter(keep).collect()`. */
  function Select(ls: seq<string>, keep: string -> bool): (r: seq<Hit>)
    ensures IsExactSelection(r, ls, keep)
  {
    if ls == [] then []
    else
      var n := |ls| - 1;
      var front := Select(ls[..n], keep);
      ExtendSelection(front, ls, keep);
      front + (if keep(ls[n]) then [Hit(n, ls[n])] else [])
  }

  /** The exact selection of all lines but the last, extended by the last line if it is kept. */
  lemma ExtendSelection(front: seq<Hit>, ls: seq<string>, keep: string -> bool)
    requires ls != [] && IsExactSelection(front, ls[..|ls| - 1], keep)
    ensures var n := |ls| - 1;
      IsExactSelection(front + (if keep(ls[n]) then [Hit(n, ls[n])] else []), ls, keep)
  {
    var n := |ls| - 1;
    var r := front + (if keep(ls[n]) then [Hit(n, ls[n])] else []);
    assert forall i :: 0 <= i < n ==> ls[..n][i] == ls[i];
    assert forall k :: 0 <= k < |front| ==> r[k] == front[k];
    forall i | 0 <= i < |ls| && keep(ls[i]) ensures exists k :: 0 <= k < |r| && r[k].index == i {
      if i == n {
        assert r[|front|].index == i;
      } else {
        var k :| 0 <= k < |front| && front[k].index == i;
        assert r[k].index == i;
      }
    }
  }

  /** Removing a last line that is kept removes the last hit. */
  lemma DropKeptLast(r: seq<Hit>, ls: seq<string>, keep: string -> bool)
    requires IsExactSelection(r, ls, keep) && ls != [] && keep(ls[|ls| - 1])
    ensures r != [] && r[|r| - 1] == Hit(|ls| - 1, ls[|ls| - 1])
    ensures IsExactSelection(r[..|r| - 1], ls[..|ls| - 1], keep)
  {
    var n := |ls| - 1;
    var k :| 0 <= k < |r| && r[k].index == n;
    assert r[|r| - 1].index >= r[k].index;
    var front := r[..|r| - 1];
    forall i | 0 <= i < n && keep(ls[..n][i])
      ensures exists k :: 0 <= k < |front| && front[k].index == i
    {
      var k :| 0 <= k < |r| && r[k].index == i;
      assert front[k] == r[k];
    }
  }

  /** Removing a last line that is not kept leaves the hits as they are. */
  lemma DropSkippedLast(r: seq<Hit>, ls: seq<string>, keep: string -> bool)
    requires IsExactSelection(r, ls, keep) && ls != [] && !keep(ls[|ls| - 1])
    ensures IsExactSelection(r, ls[..|ls| - 1], keep)
  {
    var n := |ls| - 1;
    forall k | 0 <= k < |r| ensures r[k].index < n {
    }
  }

  /** The exact-selection property pins the result down: nothing else satisfies it. */
  lemma {:induction false} SelectIsUnique(r: seq<Hit>, ls: seq<string>, keep: string -> bool)
    requires IsExactSelection(r, ls, keep)
    ensures r == Select(ls, keep)
  {
    if ls != [] {
      var n := |ls| - 1;
      if keep(ls[n]) {
        DropKeptLast(r, ls, keep);
        SelectIsUnique(r[..|r| - 1], ls[..n], keep);
        assert r == r[..|r| - 1] + [Hit(n, ls[n])];
      } else {
        DropSkippedLast(r, ls, keep);
        SelectIsUnique(r, ls[..n], keep);
      }
    }
  }

  /** The filter of `search`: the line contains the query. */
  function LineHas(query: string): string -> bool {
    (line: string) => Contains(line, query)
  }

  /** The filter of `search_case_insensitive`: the lowercased line contains the lowercased query. */
  function LineHasIgnoringCase(query: string): string -> bool {
    (line: string) => Contains(ToLower(line), ToLower(query))
  }

  /** `search`: the lines of `contents` that contain `query`, with their indices. */
  function Search(query: string, contents: string): (r: seq<Hit>)
    ensures forall k :: 0 <= k < |r| ==>
      r[k].index < |Lines(contents)| && r[k].line == Lines(contents)[r[k].index] && Contains(r[k].line, query)
    ensures forall k, j :: 0 <= k < j < |r| ==> r[k].index < r[j].index
    ensures forall i :: 0 <= i < |Lines(contents)| && Contains(Lines(contents)[i], query) ==>
      exists k :: 0 <= k < |r| && r[k].index == i
  {
    var r := Select(Lines(contents), LineHas(query));
    assert IsExactSelection(r, Lines(contents), LineHas(query));
    r
  }

  /**
   * `search_case_insensitive`: the lines whose lowercase form contains the
   * lowercase query; the line returned is the original one.
   */
  function SearchCaseInsensitive(query: string, contents: string): (r: seq<Hit>)
    ensures forall k :: 0 <= k < |r| ==>
      r[k].index < |Lines(contents)| && r[k].line == Lines(contents)[r[k].index] &&
      Contains(ToLower(r[k].line), ToLower(query))
    ensures forall k, j :: 0 <= k < j < |r| ==> r[k].index < r[j].index
    ensures forall i :: 0 <= i < |Lines(contents)| && Contains(ToLower(Lines(contents)[i]), ToLower(query)) ==>
      exists k :: 0 <= k < |r| && r[k].index == i
  {
    var r := Select(Lines(contents), LineHasIgnoringCase(query));
    assert IsExactSelection(r, Lines(contents), LineHasIgnoringCase(query));
    r
  }

  /** A selection that keeps every line is the whole text, numbered. */
  lemma SelectAll(ls: seq<string>, keep: string -> bool)
    requires forall k :: 0 <= k < |ls| ==> keep(ls[k])
    ensures |Select(ls, keep)| == |ls|
    ensures forall k :: 0 <= k < |ls| ==> Select(ls, keep)[k] == Hit(k, ls[k])
  {
    var all := seq(|ls|, k requires 0 <= k < |ls| => Hit(k, ls[k]));
    assert forall k :: 0 <= k < |all| ==> all[k] == Hit(k, ls[k]);
    assert forall k :: 0 <= k < |all| ==> all[k].index < |ls| && all[k].line == ls[all[k].index] && keep(all[k].line);
    assert forall k, j :: 0 <= k < j < |all| ==> all[k].index < all[j].index;
    forall i | 0 <= i < |ls| && keep(ls[i])
      ensures exists k :: 0 <= k < |all| && all[k].index == i
    {
      assert all[i].index == i;
    }
    SelectIsUnique(all, ls, keep);
  }

  /** The empty query matches every line. */
  lemma SearchEmptyQuery(contents: string)
    ensures |Search("", contents)| == |Lines(contents)|
    ensures forall k :: 0 <= k < |Lines(contents)| ==> Search("", contents)[k] == Hit(k, Lines(contents)[k])
  {
    var keep := LineHas("");
    forall k | 0 <= k < |Lines(contents)| ensures keep(Lines(contents)[k]) {
      assert OccursAt(Lines(contents)[k], "", 0);
    }
    SelectAll(Lines(contents), keep);
  }

  /** Every case-sensitive match is also a case-insensitive match. */
  lemma SearchWithinCaseInsensitive(query: string, contents: string)
    ensures forall h :: h in Search(query, contents) ==> h in SearchCaseInsensitive(query, contents)
  {
    var ci := SearchCaseInsensitive(query, contents);
    forall h | h in Search(query, contents) ensures h in ci {
      ContainsToLower(h.line, query);
      var k :| 0 <= k < |ci| && ci[k].index == h.index;
    }
  }

  /** The case of the query does not matter to the case-insensitive search. */
  lemma CaseInsensitiveIgnoresQueryCase(query: string, contents: string)
    ensures SearchCaseInsensitive(query, contents) == SearchCaseInsensitive(ToLower(query), contents)
  {
    ToLowerIdempotent(query);
    var r := SearchCaseInsensitive(query, contents);
    SelectIsUnique(r, Lines(contents), LineHasIgnoringCase(ToLower(query)));
  }

  /** The poem of the case-sensitive unit test in src/lib.rs, and its lines. */
  const DuctPoem: string := "Rust:\n" + "safe, fast, productive.\n" + "Pick three.\n" + "Duct tape."
  const DuctLines: seq<string> := ["Rust:", "safe, fast, productive.", "Pick three.", "Duct tape."]

  /** The poem of the case-insensitive unit test in src/lib.rs, and its lines. */
  const TrustPoem: string := "Rust:\n" + "safe, fast, productive.\n" + "Pick three.\n" + "Trust me."
  const TrustLines: seq<string> := ["Rust:", "safe, fast, productive.", "Pick three.", "Trust me."]

  /** The `case_sensitive` poem splits into its four lines. */
  lemma DuctPoemLines()
    ensures Lines(DuctPoem) == DuctLines
  {
    var ls := DuctLines[..3];
    assert Unlines(ls[2..]) == "Pick three.\n";
    assert Unlines(ls[1..]) == "safe, fast, productive.\n" + "Pick three.\n";
    assert Unlines(ls) + "Duct tape." == DuctPoem;
    UnterminatedLastLine(ls, "Duct tape.");
  }

  /** Which lines of the `case_sensitive` poem contain "duct". */
  lemma DuctPoemFilter()
    ensures !LineHas("duct")(DuctLines[0]) && LineHas("duct")(DuctLines[1])
    ensures !LineHas("duct")(DuctLines[2]) && !LineHas("duct")(DuctLines[3])
  {
    assert OccursAt(DuctLines[1], "duct", 15);
    MissingCharacter(DuctLines[0], "duct", 0);
    MissingCharacter(DuctLines[2], "duct", 0);
    MissingCharacter(DuctLines[3], "duct", 0);
  }

  /** The unit test `case_sensitive`: "duct" matches line 1 only. */
  lemma CaseSensitiveTest()
    ensures Search("duct", DuctPoem) == [Hit(1, "safe, fast, productive.")]
  {
    DuctPoemLines();
    DuctPoemFilter();
    var ls := DuctLines;
    var expected := [Hit(1, "safe, fast, productive.")];
    forall i | 0 <= i < |ls| && LineHas("duct")(ls[i])
      ensures exists k :: 0 <= k < |expected| && expected[k].index == i
    {
      assert i == 0 || i == 1 || i == 2 || i == 3;
      assert expected[0].index == i;
    }
    SelectIsUnique(expected, ls, LineHas("duct"));
  }

  /** The `case_insensitive` poem splits into its four lines. */
  lemma TrustPoemLines()
    ensures Lines(TrustPoem) == TrustLines
  {
    var ls := TrustLines[..3];
    assert Unlines(ls[2..]) == "Pick three.\n";
    assert Unlines(ls[1..]) == "safe, fast, productive.\n" + "Pick three.\n";
    assert Unlines(ls) + "Trust me." == TrustPoem;
    UnterminatedLastLine(ls, "Trust me.");
  }

  /** "rust" does not occur in the second line, lowercased. */
  lemma SecondLineHasNoRust()
    ensures !Contains(ToLower(TrustLines[1]), "rust")
  {
    var front, back := "safe, fast, p", "roductive.";
    assert TrustLines[1] == front + back;
    ToLowerAppend(front, back);
    LowercaseLetterMissing(front, 'r');
    LowercaseLetterMissing(back, 's');
    MissingCharacter(ToLower(back), "rust", 2);
    FirstCharacterMissing(ToLower(front), ToLower(back), "rust");
  }

  /** The query "rUsT" and the line "Rust" both lowercase to "rust". */
  lemma QueryLowered()
    ensures ToLower("rUsT") == "rust" && ToLower("Rust") == "rust"
  {
    ToLowerAt("rUsT");
    ToLowerAt("Rust");
  }

  /** "rust" occurs in the first and the last line, lowercased. */
  lemma OuterLinesHaveRust()
    ensures Contains(ToLower(TrustLines[0]), "rust")
    ensures Contains(ToLower(TrustLines[3]), "rust")
  {
    QueryLowered();
    assert OccursAt(TrustLines[0], "Rust", 0);
    ContainsToLower(TrustLines[0], "Rust");
    assert OccursAt(TrustLines[3], "rust", 1);
    ContainsToLower(TrustLines[3], "rust");
    ToLowerIdempotent("Rust");
  }

  /** "rust" does not occur in the third line, lowercased. */
  lemma ThirdLineHasNoRust()
    ensures !Contains(ToLower(TrustLines[2]), "rust")
  {
    LowercaseLetterMissing(TrustLines[2], 'u');
    MissingCharacter(ToLower(TrustLines[2]), "rust", 1);
  }

  /** Which lines of the `case_insensitive` poem contain "rUsT", ignoring case. */
  lemma TrustPoemFilter()
    ensures LineHasIgnoringCase("rUsT")(TrustLines[0]) && !LineHasIgnoringCase("rUsT")(TrustLines[1])
    ensures !LineHasIgnoringCase("rUsT")(TrustLines[2]) && LineHasIgnoringCase("rUsT")(TrustLines[3])
  {
    QueryLowered();
    OuterLinesHaveRust();
    SecondLineHasNoRust();
    ThirdLineHasNoRust();
  }

  /** A four-line selection that keeps the first and the last line only. */
  lemma SelectOuterOfFour(ls: seq<string>, keep: string -> bool)
    requires |ls| == 4 && keep(ls[0]) && !keep(ls[1]) && !keep(ls[2]) && keep(ls[3])
    ensures Select(ls, keep) == [Hit(0, ls[0]), Hit(3, ls[3])]
  {
    var expected := [Hit(0, ls[0]), Hit(3, ls[3])];
    forall i | 0 <= i < |ls| && keep(ls[i])
      ensures exists k :: 0 <= k < |expected| && expected[k].index == i
    {
      if i == 0 {
        assert expected[0].index == i;
      } else {
        assert expected[1].index == i;
      }
    }
    SelectIsUnique(expected, ls, keep);
  }

  /** The lines of the `case_insensitive` poem that hold "rUsT", ignoring case: the first and the last. */
  lemma TrustPoemSelection()
    ensures Select(TrustLines, LineHasIgnoringCase("rUsT")) == [Hit(0, "Rust:"), Hit(3, "Trust me.")]
  {
    TrustPoemFilter();
    SelectOuterOfFour(TrustLines, LineHasIgnoringCase("rUsT"));
  }

  /** The unit test `case_insensitive`: "rUsT" matches lines 0 and 3, returned as written. */
  lemma CaseInsensitiveTest()
    ensures SearchCaseInsensitive("rUsT", TrustPoem) == [Hit(0, "Rust:"), Hit(3, "Trust me.")]
  {
    TrustPoemLines();
    TrustPoemSelection();
  }
}
