/**
 * The parts of Rust's `str` that the search utility relies on, over strings
 * as sequences of characters: `lines`, `contains`, `to_lowercase` (ASCII
 * only) and `split` on one separator character.
 */
module Text {
  import opened Seqs

  /** Index of the first occurrence of `c` in `s`, or `|s|` when there is none. */
  function IndexOf(s: string, c: char): (i: nat)
    ensures i <= |s|
    ensures i < |s| ==> s[i] == c
  {
    if s == [] then 0
    else if s[0] == c then 0
    else 1 + IndexOf(s[1..], c)
  }

  /** Nothing before the index found is `c`, so it is the first occurrence. */
  lemma {:induction false} IndexOfIsFirst(s: string, c: char)
    ensures c !in s[..IndexOf(s, c)]
    ensures IndexOf(s, c) == |s| <==> c !in s
  {
    if s != [] && s[0] != c {
      var j := IndexOf(s[1..], c);
      IndexOfIsFirst(s[1..], c);
      assert s[..j + 1] == [s[0]] + s[1..][..j];
    }
  }

  /** IndexOf finds the separator right after a prefix that does not contain it. */
  lemma {:induction false} IndexOfAfterPrefix(l: string, c: char, t: string)
    requires c !in l
    ensures IndexOf(l + [c] + t, c) == |l|
  {
    var s := l + [c] + t;
    var i := IndexOf(s, c);
    IndexOfIsFirst(s, c);
    assert s[|l|] == c;
    assert s[..|l|] == l;
    assert i <= |l| ==> s[..i] == l[..i];
  }

  /** `l` ends in a carriage return. */
  predicate EndsWithCarriageReturn(l: string) {
    |l| > 0 && l[|l| - 1] == '\r'
  }

  /** `l` with one trailing carriage return removed, if it has one. */
  function DropCarriageReturn(l: string): (r: string)
    ensures EndsWithCarriageReturn(l) ==> r + ['\r'] == l
    ensures !EndsWithCarriageReturn(l) ==> r == l
  {
    if EndsWithCarriageReturn(l) then l[..|l| - 1] else l
  }

  /**
   * Rust's `str::lines`: the text is cut after every '\n'; the '\n' and a
   * '\r' right before it are not part of the line; a last line without a
   * terminator is still a line, and a text ending in '\n' has no extra empty
   * line after it.
   */
  function Lines(s: string): (ls: seq<string>)
    decreases |s|
  {
    if s == [] then []
    else
      var i := IndexOf(s, '\n');
      if i == |s| then [s]
      else [DropCarriageReturn(s[..i])] + Lines(s[i + 1..])
  }

  /** No line holds a '\n', and only the empty text has no lines. */
  lemma {:induction false} LinesHaveNoNewline(s: string)
    ensures forall k :: 0 <= k < |Lines(s)| ==> '\n' !in Lines(s)[k]
    ensures s == [] <==> Lines(s) == []
    decreases |s|
  {
    if s != [] {
      var i := IndexOf(s, '\n');
      IndexOfIsFirst(s, '\n');
      if i < |s| {
        assert DropCarriageReturn(s[..i]) <= s[..i];
        LinesHaveNoNewline(s[i + 1..]);
      }
    }
  }

  /** The text made of the given lines, each followed by '\n'. */
  function Unlines(ls: seq<string>): (s: string)
  {
    if ls == [] then [] else ls[0] + "\n" + Unlines(ls[1..])
  }

  /** A line that is terminated by '\n' and does not end in '\r' comes out unchanged. */
  lemma LinesOfTerminatedLine(l: string, tail: string)
    requires '\n' !in l && !EndsWithCarriageReturn(l)
    ensures Lines(l + "\n" + tail) == [l] + Lines(tail)
  {
    var s := l + "\n" + tail;
    IndexOfAfterPrefix(l, '\n', tail);
    assert s[..|l|] == l;
    assert s[|l| + 1..] == tail;
  }

  /** A line terminated by "\r\n" comes out without the '\r' and the '\n'. */
  lemma CrLfLine(l: string, tail: string)
    requires '\n' !in l
    ensures Lines(l + "\r\n" + tail) == [l] + Lines(tail)
  {
    var s := l + "\r\n" + tail;
    IndexOfAfterPrefix(l + "\r", '\n', tail);
    assert s == (l + "\r") + "\n" + tail;
    assert s[..|l| + 1] == l + "\r";
    assert s[|l| + 2..] == tail;
  }

  /** One step of LinesOfUnlines: the first terminated line comes out unchanged. */
  lemma UnlinesStep(ls: seq<string>, rest: string)
    requires ls != [] && '\n' !in ls[0] && !EndsWithCarriageReturn(ls[0])
    ensures Lines(Unlines(ls) + rest) == [ls[0]] + Lines(Unlines(ls[1..]) + rest)
  {
    var tail := Unlines(ls[1..]) + rest;
    assert Unlines(ls) + rest == ls[0] + "\n" + tail;
    LinesOfTerminatedLine(ls[0], tail);
  }

  /**
   * Splitting a text whose first lines are all terminated gives back those
   * lines, followed by the lines of the rest: this is the inverse of Unlines.
   */
  lemma {:induction false} LinesOfUnlines(ls: seq<string>, rest: string)
    requires forall k :: 0 <= k < |ls| ==> '\n' !in ls[k] && !EndsWithCarriageReturn(ls[k])
    ensures Lines(Unlines(ls) + rest) == ls + Lines(rest)
  {
    if ls != [] {
      UnlinesStep(ls, rest);
      assert forall k :: 0 <= k < |ls| - 1 ==> ls[1..][k] == ls[k + 1];
      LinesOfUnlines(ls[1..], rest);
      PrependTail(ls, Lines(rest));
    } else {
      assert Unlines(ls) + rest == rest;
    }
  }

  /** A text ending in '\n' has no empty line after that '\n'. */
  lemma TerminatedLines(ls: seq<string>)
    requires forall k :: 0 <= k < |ls| ==> '\n' !in ls[k] && !EndsWithCarriageReturn(ls[k])
    ensures Lines(Unlines(ls)) == ls
  {
    LinesOfUnlines(ls, []);
    assert Unlines(ls) + [] == Unlines(ls);
  }

  /** A last line without a terminator is still a line. */
  lemma UnterminatedLastLine(ls: seq<string>, last: string)
    requires forall k :: 0 <= k < |ls| ==> '\n' !in ls[k] && !EndsWithCarriageReturn(ls[k])
    requires last != [] && '\n' !in last
    ensures Lines(Unlines(ls) + last) == ls + [last]
  {
    LinesOfUnlines(ls, last);
  }

  /** `q` occurs in `s` starting at position `i`. */
  predicate OccursAt(s: string, q: string, i: int) {
    0 <= i && i + |q| <= |s| && s[i..i + |q|] == q
  }

  /** Whether `q` occurs in `s` at position `from` or later: the naive scan. */
  function ContainsFrom(s: string, q: string, from: nat): (b: bool)
    ensures b <==> exists i :: from <= i && OccursAt(s, q, i)
    decreases |s| - from
  {
    if from + |q| > |s| then false
    else OccursAt(s, q, from) || ContainsFrom(s, q, from + 1)
  }

  /** Rust's `str::contains` with a string pattern: `q` is a substring of `s`. */
  function Contains(s: string, q: string): (b: bool)
    ensures b <==> exists i :: OccursAt(s, q, i)
  {
    ContainsFrom(s, q, 0)
  }

  /** A text that lacks one of the query's characters does not contain the query. */
  lemma MissingCharacter(s: string, q: string, j: int)
    requires 0 <= j < |q| && q[j] !in s
    ensures !Contains(s, q)
  {
  }

  /**
   * When the query's first character is missing from `a`, the query can only
   * occur in `a + b` inside `b`.
   */
  lemma FirstCharacterMissing(a: string, b: string, q: string)
    requires |q| > 0 && q[0] !in a && !Contains(b, q)
    ensures !Contains(a + b, q)
  {
    if i :| OccursAt(a + b, q, i) {
      assert (a + b)[i..i + |q|][0] == (a + b)[i];
      assert (a + b)[i..i + |q|] == b[i - |a|..i - |a| + |q|];
      assert OccursAt(b, q, i - |a|);
    }
  }

  /**
   * ASCII lowercasing of one character: no capital comes out, a lowercase
   * letter comes from itself or from its capital, and every other
   * character comes from itself.
   */
  function LowerChar(c: char): (d: char)
    ensures !('A' <= d <= 'Z')
    ensures 'a' <= d <= 'z' ==> c == d || c as int == d as int - 32
    ensures !('a' <= d <= 'z') ==> c == d
  {
    if 'A' <= c <= 'Z' then (c as int + 32) as char else c
  }

  /** `to_lowercase`, restricted to ASCII: character by character. */
  function ToLower(s: string): (r: string)
  {
    seq(|s|, k requires 0 <= k < |s| => LowerChar(s[k]))
  }

  /** Lowercasing keeps the length and works on each character alone. */
  lemma ToLowerAt(s: string)
    ensures |ToLower(s)| == |s|
    ensures forall k :: 0 <= k < |s| ==> ToLower(s)[k] == LowerChar(s[k])
  {
  }

  /** A lowercase letter is absent from the lowercased text when both of its cases are absent from the text. */
  lemma LowercaseLetterMissing(s: string, c: char)
    requires 'a' <= c <= 'z' && c !in s && (c as int - 32) as char !in s
    ensures c !in ToLower(s)
  {
    ToLowerAt(s);
  }

  /** Lowercasing a concatenation lowercases each part. */
  lemma ToLowerAppend(a: string, b: string)
    ensures ToLower(a + b) == ToLower(a) + ToLower(b)
  {
  }

  /** Lowercasing leaves no ASCII capital behind, so doing it twice changes nothing. */
  lemma ToLowerIdempotent(s: string)
    ensures forall k :: 0 <= k < |ToLower(s)| ==> !('A' <= ToLower(s)[k] <= 'Z')
    ensures ToLower(ToLower(s)) == ToLower(s)
  {
    ToLowerAt(s);
    ToLowerAt(ToLower(s));
  }

  /** An exact occurrence is still an occurrence once both sides are lowercased. */
  lemma ContainsToLower(s: string, q: string)
    requires Contains(s, q)
    ensures Contains(ToLower(s), ToLower(q))
  {
    var i :| OccursAt(s, q, i);
    ToLowerAt(s);
    ToLowerAt(q);
    assert forall k :: 0 <= k < |q| ==> ToLower(s)[i..i + |q|][k] == ToLower(q)[k] by {
      forall k | 0 <= k < |q| ensures ToLower(s)[i..i + |q|][k] == ToLower(q)[k] {
        assert s[i..i + |q|][k] == q[k];
      }
    }
    assert OccursAt(ToLower(s), ToLower(q), i);
  }

  /**
   * Rust's `char::is_whitespace`: the characters with the Unicode
   * White_Space property.
   */
  predicate IsWhitespace(c: char) {
    || ('\t' <= c <= '\r') || c == ' ' || c == '\U{0085}' || c == '\U{00A0}' || c == '\U{1680}'
    || ('\U{2000}' <= c <= '\U{200A}') || c == '\U{2028}' || c == '\U{2029}' || c == '\U{202F}'
    || c == '\U{205F}' || c == '\U{3000}'
  }

  /** `trim_start`: `s` without its leading whitespace. */
  function TrimStart(s: string): (r: string)
    ensures |r| <= |s|
  {
    if s != [] && IsWhitespace(s[0]) then TrimStart(s[1..]) else s
  }

  /** `trim_end`: `s` without its trailing whitespace. */
  function TrimEnd(s: string): (r: string)
    ensures |r| <= |s|
  {
    if s != [] && IsWhitespace(s[|s| - 1]) then TrimEnd(s[..|s| - 1]) else s
  }

  /** `trim_start` keeps a suffix and cuts only whitespace, up to a character that is not. */
  lemma {:induction false} TrimStartCuts(s: string)
    ensures TrimStart(s) == s[|s| - |TrimStart(s)|..]
    ensures forall k :: 0 <= k < |s| - |TrimStart(s)| ==> IsWhitespace(s[k])
    ensures TrimStart(s) != [] ==> !IsWhitespace(TrimStart(s)[0])
  {
    if s != [] && IsWhitespace(s[0]) {
      TrimStartCuts(s[1..]);
      assert s[1..][|s| - 1 - |TrimStart(s)|..] == s[|s| - |TrimStart(s)|..];
      forall k | 1 <= k < |s| - |TrimStart(s)| ensures IsWhitespace(s[k]) {
        assert s[k] == s[1..][k - 1];
      }
    }
  }

  /** `trim_end` keeps a prefix and cuts only whitespace, back to a character that is not. */
  lemma {:induction false} TrimEndCuts(s: string)
    ensures TrimEnd(s) == s[..|TrimEnd(s)|]
    ensures forall k :: |TrimEnd(s)| <= k < |s| ==> IsWhitespace(s[k])
    ensures TrimEnd(s) != [] ==> !IsWhitespace(TrimEnd(s)[|TrimEnd(s)| - 1])
  {
    if s != [] && IsWhitespace(s[|s| - 1]) {
      var init := s[..|s| - 1];
      TrimEndCuts(init);
      assert init[..|TrimEnd(s)|] == s[..|TrimEnd(s)|];
      forall k | |TrimEnd(s)| <= k < |s| - 1 ensures IsWhitespace(s[k]) {
        assert s[k] == init[k];
      }
    }
  }

  /** `trim`: `s` without its leading and trailing whitespace. */
  function Trim(s: string): string {
    TrimEnd(TrimStart(s))
  }

  /**
   * What `trim` keeps: the slice `s[i..j]` of the text, with only
   * whitespace cut on either side.
   */
  lemma TrimIsSlice(s: string, i: nat, j: nat)
    requires i == |s| - |TrimStart(s)| && j == i + |Trim(s)|
    ensures j <= |s| && Trim(s) == s[i..j]
    ensures forall k :: 0 <= k < i ==> IsWhitespace(s[k])
    ensures forall k :: j <= k < |s| ==> IsWhitespace(s[k])
  {
    var t := TrimStart(s);
    var r := TrimEnd(t);
    TrimStartCuts(s);
    TrimEndCuts(t);
    assert t == s[i..];
    assert r == t[..|r|];
    assert s[i..][..|r|] == s[i..j];
    forall k | j <= k < |s| ensures IsWhitespace(s[k]) {
      assert s[k] == t[k - i];
    }
  }

  /** Neither end of a trimmed text is whitespace. */
  lemma TrimmedEnds(s: string)
    ensures Trim(s) != [] ==> !IsWhitespace(Trim(s)[0]) && !IsWhitespace(Trim(s)[|Trim(s)| - 1])
  {
    var t := TrimStart(s);
    var r := TrimEnd(t);
    TrimStartCuts(s);
    TrimEndCuts(t);
    if r != [] {
      assert r == t[..|r|];
      assert r[0] == t[0];
    }
  }

  /** A line that neither starts nor ends with whitespace is left as it is. */
  lemma TrimKeepsTrimmed(s: string)
    requires s == [] || (!IsWhitespace(s[0]) && !IsWhitespace(s[|s| - 1]))
    ensures Trim(s) == s
  {
  }

  /** Trimming twice trims no more than trimming once. */
  lemma TrimIdempotent(s: string)
    ensures Trim(Trim(s)) == Trim(s)
  {
    TrimmedEnds(s);
    TrimKeepsTrimmed(Trim(s));
  }

  /**
   * Rust's `str::split` on one character: the pieces between separators,
   * including the empty ones at either end; there is always at least one.
   */
  function Split(s: string, sep: char): (parts: seq<string>)
    ensures |parts| >= 1
    ensures forall k :: 0 <= k < |parts| ==> sep !in parts[k]
    decreases |s|
  {
    var i := IndexOf(s, sep);
    IndexOfIsFirst(s, sep);
    if i == |s| then [s] else [s[..i]] + Split(s[i + 1..], sep)
  }

  /** The pieces put back together with the separator between them. */
  function Join(parts: seq<string>, sep: char): (s: string)
    requires |parts| >= 1
  {
    if |parts| == 1 then parts[0] else parts[0] + [sep] + Join(parts[1..], sep)
  }

  /** Splitting loses nothing: joining the pieces gives back the text. */
  lemma {:induction false} JoinSplit(s: string, sep: char)
    ensures Join(Split(s, sep), sep) == s
    decreases |s|
  {
    var i := IndexOf(s, sep);
    if i < |s| {
      var rest := Split(s[i + 1..], sep);
      assert Split(s, sep) == [s[..i]] + rest;
      JoinSplit(s[i + 1..], sep);
      calc {
        Join(Split(s, sep), sep);
        s[..i] + [sep] + Join(rest, sep);
        s[..i] + [sep] + s[i + 1..];
        s;
      }
    }
  }

  /** Joining pieces that do not contain the separator and splitting again gives the pieces. */
  lemma {:induction false} SplitJoin(parts: seq<string>, sep: char)
    requires |parts| >= 1
    requires forall k :: 0 <= k < |parts| ==> sep !in parts[k]
    ensures Split(Join(parts, sep), sep) == parts
  {
    if |parts| > 1 {
      var tail := Join(parts[1..], sep);
      IndexOfAfterPrefix(parts[0], sep, tail);
      var s := Join(parts, sep);
      assert s[..|parts[0]|] == parts[0];
      assert s[|parts[0]| + 1..] == tail;
      assert forall k :: 0 <= k < |parts| - 1 ==> parts[1..][k] == parts[k + 1];
      SplitJoin(parts[1..], sep);
      HeadTail(parts);
    }
  }

  /** `j` is where the text after the last `sep` of `s` begins. */
  predicate IsLastPieceStart(s: string, sep: char, j: int) {
    0 <= j <= |s| && sep !in s[j..] && (j == 0 || s[j - 1] == sep)
  }

  /** The last piece of a split is the text after the last separator. */
  lemma {:induction false} LastPiece(s: string, sep: char, j: int)
    requires IsLastPieceStart(s, sep, j)
    ensures var parts := Split(s, sep); parts[|parts| - 1] == s[j..]
    decreases |s|
  {
    var i := IndexOf(s, sep);
    assert j > 0 ==> s[j - 1] in s;
    if i < |s| {
      var t := s[i + 1..];
      var j' := j - (i + 1);
      assert t[j'..] == s[j..];
      assert j' > 0 ==> t[j' - 1] == s[j - 1];
      LastPiece(t, sep, j');
    }
  }
}
