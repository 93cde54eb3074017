/**
 * The encoding check of the validation mojo for one file: every logical
 * line (as the plugin's line reader rebuilds it) is searched for
 * characters outside 0x00-0x7F and for `\u` escapes whose four following
 * characters are not all hexadecimal digits.
 */
module EncodingScan {
  import opened Wrappers
  import opened LineReader

  /** A character the pattern `[^\x00-\x7F]` matches. */
  predicate IsNonAscii(c: char) {
    c > '\U{007F}'
  }

  /** A character the pattern `[0-9a-fA-F]` matches. */
  predicate IsHexDigit(c: char) {
    ('0' <= c <= '9') || ('a' <= c <= 'f') || ('A' <= c <= 'F')
  }

  /** A line terminator, which the regular-expression `.` does not match. */
  predicate IsRegexLineTerminator(c: char) {
    c == '\n' || c == '\r' || c == '\U{0085}' || c == '\U{2028}' || c == '\U{2029}'
  }

  /**
   * The pattern `\\u(?![0-9a-fA-F]{4}).{4}` matches at position `i`: a
   * backslash, `u`, and four characters other than line terminators that
   * are not all hexadecimal digits.
   */
  predicate InvalidEscapeAt(line: string, i: int) {
    0 <= i && i + 6 <= |line| && line[i] == '\\' && line[i + 1] == 'u'
    && !(IsHexDigit(line[i + 2]) && IsHexDigit(line[i + 3]) && IsHexDigit(line[i + 4]) && IsHexDigit(line[i + 5]))
    && !IsRegexLineTerminator(line[i + 2]) && !IsRegexLineTerminator(line[i + 3])
    && !IsRegexLineTerminator(line[i + 4]) && !IsRegexLineTerminator(line[i + 5])
  }

  /**
   * The successive matches of `[^\x00-\x7F]`: the non-ASCII characters of
   * the line, in order, each as often as it occurs.
   */
  function NonAsciiMatches(line: string): (r: seq<char>)
    ensures forall k :: 0 <= k < |r| ==> IsNonAscii(r[k])
    ensures forall c :: multiset(r)[c] == if IsNonAscii(c) then multiset(line)[c] else 0
    ensures |r| == 0 <==> forall k :: 0 <= k < |line| ==> !IsNonAscii(line[k])
  {
    if |line| == 0 then []
    else
      var rest := NonAsciiMatches(line[1..]);
      var r := if IsNonAscii(line[0]) then [line[0]] + rest else rest;
      NonAsciiMatchesCons(line, rest, r);
      r
  }

  /** The contract of the matches carried from the tail of a line to the whole line. */
  lemma NonAsciiMatchesCons(line: string, rest: seq<char>, r: seq<char>)
    requires |line| > 0
    requires forall k :: 0 <= k < |rest| ==> IsNonAscii(rest[k])
    requires forall c :: multiset(rest)[c] == if IsNonAscii(c) then multiset(line[1..])[c] else 0
    requires |rest| == 0 <==> forall k :: 0 <= k < |line[1..]| ==> !IsNonAscii(line[1..][k])
    requires r == if IsNonAscii(line[0]) then [line[0]] + rest else rest
    ensures forall k :: 0 <= k < |r| ==> IsNonAscii(r[k])
    ensures forall c :: multiset(r)[c] == if IsNonAscii(c) then multiset(line)[c] else 0
    ensures |r| == 0 <==> forall k :: 0 <= k < |line| ==> !IsNonAscii(line[k])
  {
    if IsNonAscii(line[0]) {
      assert forall k :: 1 <= k < |r| ==> r[k] == rest[k - 1];
    }
    NonAsciiMultisetCons(line, rest, r);
    assert forall k :: 1 <= k < |line| ==> line[k] == line[1..][k - 1];
  }

  lemma NonAsciiMultisetCons(line: string, rest: seq<char>, r: seq<char>)
    requires |line| > 0
    requires forall c :: multiset(rest)[c] == if IsNonAscii(c) then multiset(line[1..])[c] else 0
    requires r == if IsNonAscii(line[0]) then [line[0]] + rest else rest
    ensures forall c :: multiset(r)[c] == if IsNonAscii(c) then multiset(line)[c] else 0
  {
    MultisetOfCons(line);
    if IsNonAscii(line[0]) {
      assert multiset(r) == multiset{line[0]} + multiset(rest);
    }
  }

  lemma MultisetOfCons(line: string)
    requires |line| > 0
    ensures multiset(line) == multiset{line[0]} + multiset(line[1..])
  {
    assert line == [line[0]] + line[1..];
  }

  /** Position `i` lies inside one of the six-character matches starting at `starts`. */
  predicate IsCovered(starts: seq<nat>, i: int) {
    exists k :: 0 <= k < |starts| && starts[k] <= i < starts[k] + 6
  }

  /**
   * Where `Matcher.find` reports the escape pattern when searching from
   * `from`: after a match it resumes six characters on, after a miss one
   * character on. The reported positions are matches at or after `from`,
   * they are at least six apart (matches never overlap), and every match
   * position at or after `from` is a reported one or lies inside one.
   */
  function EscapeMatchStarts(line: string, from: nat): (r: seq<nat>)
    ensures forall k :: 0 <= k < |r| ==> from <= r[k] && InvalidEscapeAt(line, r[k])
    ensures forall j, k :: 0 <= j < k < |r| ==> r[j] + 6 <= r[k]
    ensures forall i {:trigger IsCovered(r, i)} :: from <= i && InvalidEscapeAt(line, i) ==> IsCovered(r, i)
    decreases |line| - from
  {
    if from >= |line| then []
    else if InvalidEscapeAt(line, from) then
      var rest := EscapeMatchStarts(line, from + 6);
      CoveredAfterMatch(line, from, rest);
      [from] + rest
    else
      EscapeMatchStarts(line, from + 1)
  }

  /** Putting a match at `from` in front of the positions reported from `from + 6` keeps them covering. */
  lemma CoveredAfterMatch(line: string, from: nat, rest: seq<nat>)
    requires forall i {:trigger IsCovered(rest, i)} :: from + 6 <= i && InvalidEscapeAt(line, i) ==> IsCovered(rest, i)
    ensures forall i {:trigger IsCovered([from] + rest, i)} :: from <= i && InvalidEscapeAt(line, i) ==> IsCovered([from] + rest, i)
  {
    var r := [from] + rest;
    forall i | from <= i && InvalidEscapeAt(line, i) ensures IsCovered(r, i) {
      if i < from + 6 {
        assert r[0] <= i < r[0] + 6;
      } else {
        assert IsCovered(rest, i);
        var k :| 0 <= k < |rest| && rest[k] <= i < rest[k] + 6;
        assert r[k + 1] == rest[k];
      }
    }
  }

  /** Reported positions from `from`: matches at or after `from`, at least six apart, covering every match. */
  ghost predicate IsMatchStarts(line: string, from: nat, s: seq<nat>) {
    (forall k :: 0 <= k < |s| ==> from <= s[k] && InvalidEscapeAt(line, s[k]))
    && (forall j, k :: 0 <= j < k < |s| ==> s[j] + 6 <= s[k])
    && (forall i {:trigger IsCovered(s, i)} :: from <= i && InvalidEscapeAt(line, i) ==> IsCovered(s, i))
  }

  /**
   * The three properties of the reported positions single them out: any
   * sequence of positions that has them is the one the search reports.
   */
  lemma {:induction false} EscapeMatchStartsUnique(line: string, from: nat, s: seq<nat>)
    requires IsMatchStarts(line, from, s)
    ensures s == EscapeMatchStarts(line, from)
    decreases |line| - from
  {
    if from >= |line| {
      if |s| > 0 {
        assert false;
      }
    } else if InvalidEscapeAt(line, from) {
      MatchStartsAfterMatch(line, from, s);
      EscapeMatchStartsUnique(line, from + 6, s[1..]);
      assert s == [from] + s[1..];
    } else {
      MatchStartsAfterMiss(line, from, s);
      EscapeMatchStartsUnique(line, from + 1, s);
    }
  }

  /** Positions with the three properties start with a match at `from`, and the rest has them from `from + 6`. */
  lemma MatchStartsAfterMatch(line: string, from: nat, s: seq<nat>)
    requires IsMatchStarts(line, from, s) && InvalidEscapeAt(line, from)
    ensures |s| > 0 && s[0] == from && IsMatchStarts(line, from + 6, s[1..])
  {
    assert IsCovered(s, from);
    var k :| 0 <= k < |s| && s[k] <= from < s[k] + 6;
    assert from <= s[0];
    assert k == 0;
    var rest := s[1..];
    forall k | 0 <= k < |rest| ensures from + 6 <= rest[k] && InvalidEscapeAt(line, rest[k]) {
      assert rest[k] == s[k + 1];
      assert s[0] + 6 <= s[k + 1];
    }
    forall j, k | 0 <= j < k < |rest| ensures rest[j] + 6 <= rest[k] {
      assert rest[j] == s[j + 1] && rest[k] == s[k + 1];
    }
    forall i | from + 6 <= i && InvalidEscapeAt(line, i) ensures IsCovered(rest, i) {
      assert IsCovered(s, i);
      var m :| 0 <= m < |s| && s[m] <= i < s[m] + 6;
      assert rest[m - 1] == s[m];
    }
  }

  /** Positions with the three properties from a position that is no match have them from the next one. */
  lemma MatchStartsAfterMiss(line: string, from: nat, s: seq<nat>)
    requires IsMatchStarts(line, from, s) && !InvalidEscapeAt(line, from)
    ensures IsMatchStarts(line, from + 1, s)
  {
    forall k | 0 <= k < |s| ensures from + 1 <= s[k] {
      assert InvalidEscapeAt(line, s[k]);
    }
  }

  /**
   * The successive matches of the escape pattern from position `from`: the
   * six characters at each position the search reports, in order.
   */
  function InvalidEscapes(line: string, from: nat): (r: seq<string>)
    ensures var starts := EscapeMatchStarts(line, from);
            |r| == |starts| && forall k :: 0 <= k < |r| ==> r[k] == line[starts[k]..starts[k] + 6]
    ensures forall k :: 0 <= k < |r| ==>
              |r[k]| == 6 && r[k][0] == '\\' && r[k][1] == 'u' && InvalidEscapeAt(r[k], 0)
  {
    var starts := EscapeMatchStarts(line, from);
    var r := seq(|starts|, k requires 0 <= k < |starts| => line[starts[k]..starts[k] + 6]);
    assert forall k :: 0 <= k < |r| ==> r[k] == line[starts[k]..starts[k] + 6] && InvalidEscapeAt(line, starts[k]);
    r
  }

  /**
   * The escape search reports nothing exactly when the pattern matches
   * nowhere at or after `from`.
   */
  lemma InvalidEscapesEmptyIff(line: string, from: nat)
    ensures InvalidEscapes(line, from) == [] <==> forall i :: from <= i < |line| ==> !InvalidEscapeAt(line, i)
  {
    var starts := EscapeMatchStarts(line, from);
    if |starts| > 0 {
      assert InvalidEscapeAt(line, starts[0]);
    } else {
      forall i | from <= i < |line| ensures !InvalidEscapeAt(line, i) {
        assert !IsCovered(starts, i);
      }
    }
  }

  /** One problem the encoding check logs and counts. */
  datatype EncodingIssue =
    | NonAsciiCharacter(lineNo: nat, character: char)
    | InvalidUnicodeEscape(lineNo: nat, sequence: string)

  /** The issues of one logical line: its non-ASCII characters, then its invalid escapes. */
  function LineIssues(line: string, lineNo: nat): (r: seq<EncodingIssue>)
    ensures forall k :: 0 <= k < |r| ==> r[k].lineNo == lineNo
    ensures |r| == |NonAsciiMatches(line)| + |InvalidEscapes(line, 0)|
  {
    CharIssues(NonAsciiMatches(line), lineNo) + EscapeIssues(InvalidEscapes(line, 0), lineNo)
  }

  /** One issue per non-ASCII match, in order. */
  function CharIssues(chars: seq<char>, lineNo: nat): seq<EncodingIssue> {
    seq(|chars|, k requires 0 <= k < |chars| => NonAsciiCharacter(lineNo, chars[k]))
  }

  /** One issue per invalid-escape match, in order. */
  function EscapeIssues(escapes: seq<string>, lineNo: nat): seq<EncodingIssue> {
    seq(|escapes|, k requires 0 <= k < |escapes| => InvalidUnicodeEscape(lineNo, escapes[k]))
  }

  /** A logical line without non-ASCII characters and without invalid escapes. */
  predicate IsCleanLine(line: string) {
    (forall k :: 0 <= k < |line| ==> !IsNonAscii(line[k]))
    && (forall i :: 0 <= i < |line| ==> !InvalidEscapeAt(line, i))
  }

  /** A logical line has no issue exactly when it is clean. */
  lemma LineIssuesEmptyIff(line: string, lineNo: nat)
    ensures LineIssues(line, lineNo) == [] <==> IsCleanLine(line)
  {
    InvalidEscapesEmptyIff(line, 0);
  }

  /** The issues of a run of logical lines, numbered from 1. */
  function IssuesOf(logicalLines: seq<string>): (r: seq<EncodingIssue>)
    ensures forall k :: 0 <= k < |r| ==> 1 <= r[k].lineNo <= |logicalLines|
  {
    if |logicalLines| == 0 then []
    else
      var front := IssuesOf(logicalLines[..|logicalLines| - 1]);
      front + LineIssues(logicalLines[|logicalLines| - 1], |logicalLines|)
  }

  /** The issues reported with line number `lineNo`, in order. */
  function IssuesOnLine(issues: seq<EncodingIssue>, lineNo: nat): seq<EncodingIssue> {
    if |issues| == 0 then []
    else (if issues[0].lineNo == lineNo then [issues[0]] else []) + IssuesOnLine(issues[1..], lineNo)
  }

  lemma {:induction false} IssuesOnLineAppend(a: seq<EncodingIssue>, b: seq<EncodingIssue>, lineNo: nat)
    ensures IssuesOnLine(a + b, lineNo) == IssuesOnLine(a, lineNo) + IssuesOnLine(b, lineNo)
  {
    if |a| > 0 {
      assert (a + b)[1..] == a[1..] + b;
      IssuesOnLineAppend(a[1..], b, lineNo);
    } else {
      assert a + b == b;
    }
  }

  lemma {:induction false} IssuesOnLineAll(a: seq<EncodingIssue>, lineNo: nat)
    requires forall k :: 0 <= k < |a| ==> a[k].lineNo == lineNo
    ensures IssuesOnLine(a, lineNo) == a
  {
    if |a| > 0 {
      IssuesOnLineAll(a[1..], lineNo);
    }
  }

  lemma {:induction false} IssuesOnLineNone(a: seq<EncodingIssue>, lineNo: nat)
    requires forall k :: 0 <= k < |a| ==> a[k].lineNo != lineNo
    ensures IssuesOnLine(a, lineNo) == []
  {
    if |a| > 0 {
      IssuesOnLineNone(a[1..], lineNo);
    }
  }

  /**
   * Logical lines are numbered from 1: the issues numbered `j + 1` are
   * exactly those of the logical line at index `j`, in the order that line
   * reports them.
   */
  lemma {:induction false} IssuesOfNumbering(logicalLines: seq<string>, j: nat)
    requires j < |logicalLines|
    ensures IssuesOnLine(IssuesOf(logicalLines), j + 1) == LineIssues(logicalLines[j], j + 1)
  {
    var n := |logicalLines|;
    var front := logicalLines[..n - 1];
    var frontIssues := IssuesOf(front);
    var last := LineIssues(logicalLines[n - 1], n);
    assert IssuesOf(logicalLines) == frontIssues + last;
    IssuesOnLineSplit(frontIssues, last, n, j + 1);
    if j < n - 1 {
      IssuesOfNumbering(front, j);
      assert front[j] == logicalLines[j];
    }
  }

  /** The issues of the earlier lines carry numbers below `n`, those of the last line carry `n`. */
  lemma IssuesOnLineSplit(front: seq<EncodingIssue>, last: seq<EncodingIssue>, n: nat, lineNo: nat)
    requires forall k :: 0 <= k < |front| ==> front[k].lineNo < n
    requires forall k :: 0 <= k < |last| ==> last[k].lineNo == n
    ensures IssuesOnLine(front + last, lineNo) == if lineNo == n then last else IssuesOnLine(front, lineNo)
  {
    IssuesOnLineAppend(front, last, lineNo);
    if lineNo == n {
      IssuesOnLineNone(front, lineNo);
      IssuesOnLineAll(last, lineNo);
    } else {
      IssuesOnLineNone(last, lineNo);
    }
  }

  /** A run of logical lines has no issue exactly when each of them is clean. */
  lemma {:induction false} IssuesOfEmptyIff(logicalLines: seq<string>)
    ensures IssuesOf(logicalLines) == [] <==> forall k :: 0 <= k < |logicalLines| ==> IsCleanLine(logicalLines[k])
  {
    if |logicalLines| > 0 {
      var front := logicalLines[..|logicalLines| - 1];
      var last := logicalLines[|logicalLines| - 1];
      IssuesOfEmptyIff(front);
      LineIssuesEmptyIff(last, |logicalLines|);
      var frontIssues, lastIssues := IssuesOf(front), LineIssues(last, |logicalLines|);
      assert IssuesOf(logicalLines) == frontIssues + lastIssues;
      assert |frontIssues + lastIssues| == |frontIssues| + |lastIssues|;
      assert (forall k :: 0 <= k < |logicalLines| ==> IsCleanLine(logicalLines[k]))
             <==> (forall k :: 0 <= k < |front| ==> IsCleanLine(front[k])) && IsCleanLine(last);
    }
  }

  /** The issues the check finds in a file: those of the logical lines read until the first null. */
  function FileIssues(lines: seq<string>): seq<EncodingIssue>
  {
    IssuesOf(ReadAll(lines, 0))
  }

  /**
   * The check of one file (the body of the try block): a fresh line reader
   * over its physical lines, logical lines numbered from 1, and one issue
   * per match of either pattern.
   */
  method ScanFileEncoding(lines: seq<string>) returns (issues: seq<EncodingIssue>)
    ensures issues == FileIssues(lines)
  {
    var lineReader := new PropertiesLineReader(lines);
    var logicalLineNo := 0;
    issues := [];
    ghost var consumed: seq<string> := [];
    ExhaustedReturnsNull(lines);
    var logicalLine := lineReader.ReadLine();
    ReadAllFrom(lines, 0, logicalLine, lineReader.pos);
    while logicalLine.Some?
      invariant lineReader.Valid() && lineReader.lines == lines
      invariant logicalLineNo == |consumed|
      invariant issues == IssuesOf(consumed)
      invariant logicalLine.Some? ==> ReadAll(lines, 0) == consumed + [logicalLine.value] + ReadAll(lines, lineReader.pos)
      invariant logicalLine.None? ==> ReadAll(lines, 0) == consumed
      decreases (if logicalLine.Some? then 1 else 0) + |lines| - lineReader.pos
    {
      logicalLineNo := logicalLineNo + 1;
      var lineIssues := ScanLogicalLine(logicalLine.value, logicalLineNo);
      ghost var before, line, pos0 := consumed, logicalLine.value, lineReader.pos;
      consumed := consumed + [line];
      issues := issues + lineIssues;
      logicalLine := lineReader.ReadLine();
      ScanStep(lines, before, line, pos0, logicalLine, lineReader.pos, consumed);
    }
  }

  /**
   * The two `find` loops for one logical line: an issue per non-ASCII
   * character, then an issue per invalid escape.
   */
  method ScanLogicalLine(logicalLine: string, logicalLineNo: nat) returns (lineIssues: seq<EncodingIssue>)
    ensures lineIssues == LineIssues(logicalLine, logicalLineNo)
  {
    var nonAscii := NonAsciiMatches(logicalLine);
    lineIssues := ReportNonAscii(nonAscii, logicalLineNo);
    var escapes := InvalidEscapes(logicalLine, 0);
    lineIssues := ReportInvalidEscapes(lineIssues, escapes, logicalLineNo);
  }

  /** The first `find` loop: an issue per non-ASCII match, in order. */
  method ReportNonAscii(nonAscii: seq<char>, logicalLineNo: nat) returns (lineIssues: seq<EncodingIssue>)
    ensures lineIssues == CharIssues(nonAscii, logicalLineNo)
  {
    lineIssues := [];
    for m := 0 to |nonAscii|
      invariant lineIssues == seq(m, k requires 0 <= k < m => NonAsciiCharacter(logicalLineNo, nonAscii[k]))
    {
      lineIssues := lineIssues + [NonAsciiCharacter(logicalLineNo, nonAscii[m])];
    }
  }

  /** The second `find` loop: after the issues so far, an issue per invalid-escape match, in order. */
  method ReportInvalidEscapes(charIssues: seq<EncodingIssue>, escapes: seq<string>, logicalLineNo: nat)
    returns (lineIssues: seq<EncodingIssue>)
    ensures lineIssues == charIssues + EscapeIssues(escapes, logicalLineNo)
  {
    lineIssues := charIssues;
    for m := 0 to |escapes|
      invariant lineIssues
                == charIssues + seq(m, k requires 0 <= k < m => InvalidUnicodeEscape(logicalLineNo, escapes[k]))
    {
      lineIssues := lineIssues + [InvalidUnicodeEscape(logicalLineNo, escapes[m])];
    }
  }

  /** The loop of the file check carried over one logical line and the `readLine` after it. */
  lemma ScanStep(lines: seq<string>, before: seq<string>, line: string, pos: nat, r: Option<string>, next: nat,
                 consumed: seq<string>)
    requires pos <= |lines| && ReadAll(lines, 0) == before + [line] + ReadAll(lines, pos)
    requires (r, next) == ReadLogical(lines, pos) && consumed == before + [line]
    ensures IssuesOf(consumed) == IssuesOf(before) + LineIssues(line, |consumed|)
    ensures r.Some? ==> ReadAll(lines, 0) == consumed + [r.value] + ReadAll(lines, next)
    ensures r.None? ==> ReadAll(lines, 0) == consumed
  {
    assert consumed[..|consumed| - 1] == before;
    ReadAllFrom(lines, pos, r, next);
  }

  /** What one more `readLine` at `pos` tells about the logical lines still to come. */
  lemma ReadAllFrom(lines: seq<string>, pos: nat, r: Option<string>, next: nat)
    requires pos <= |lines| && (r, next) == ReadLogical(lines, pos)
    ensures next <= |lines|
    ensures r.Some? ==> ReadAll(lines, pos) == [r.value] + ReadAll(lines, next)
    ensures r.None? ==> ReadAll(lines, pos) == []
  {
  }

  /** A file whose every logical line, as read before the first null, is clean. */
  predicate IsCleanFile(lines: seq<string>) {
    var logicalLines := ReadAll(lines, 0);
    forall k :: 0 <= k < |logicalLines| ==> IsCleanLine(logicalLines[k])
  }

  /** A file has no issue exactly when every logical line read before the first null is clean. */
  lemma FileIssuesEmptyIff(lines: seq<string>)
    ensures FileIssues(lines) == [] <==> IsCleanFile(lines)
  {
    var logicalLines := ReadAll(lines, 0);
    assert FileIssues(lines) == IssuesOf(logicalLines);
    IssuesOfEmptyIff(logicalLines);
  }

  /**
   * The check stops at the first null from the reader: a bare backslash
   * followed by an empty line reads as null, so nothing after it is
   * checked, whatever it holds.
   */
  lemma BareBackslashHidesRestOfFile(rest: seq<string>)
    ensures FileIssues(["\\", ""] + rest) == []
  {
    var lines := ["\\", ""] + rest;
    assert Classify(lines[0], false) == Continued("") by {
      assert lines[0] == "\\";
      assert StripLeading("\\") == "\\";
    }
    StepContinued(lines, 0, "", false, "");
    assert Classify(lines[1], true) == Blank by {
      assert lines[1] == "";
    }
    StepBlankEnds(lines, 1, "" + "");
    assert Finish("" + "") == None;
    assert ReadLogical(lines, 0) == (None, 2);
  }
}
