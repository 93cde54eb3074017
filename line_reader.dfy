/**
 * The logical-line reader of the plugin (PropertiesLineReader): it rebuilds
 * the logical records of a `.properties` file from its physical lines,
 * following a simplified form of the rules of `java.util.Properties.load`.
 * The physical lines are what `BufferedReader.readLine` would deliver; they
 * are an input of the model, and the reader's position in them is its state.
 */
module LineReader {
  import opened Wrappers

  /** Space, tab and form feed: the characters stripped at the start of every physical line. */
  predicate IsLeadingWhitespace(c: char) {
    c == ' ' || c == '\t' || c == '\U{000C}'
  }

  /** A physical line with its leading space, tab and form-feed characters removed. */
  function StripLeading(line: string): (r: string)
    ensures |r| <= |line|
    ensures |r| > 0 ==> !IsLeadingWhitespace(r[0])
  {
    if |line| > 0 && IsLeadingWhitespace(line[0]) then StripLeading(line[1..]) else line
  }

  /** The value `readLine` returns for an accumulated text: null when nothing was accumulated. */
  function Finish(text: string): (r: Option<string>)
    ensures r.None? <==> |text| == 0
    ensures r.Some? ==> r.value == text && |r.value| > 0
  {
    if |text| > 0 then Some(text) else None
  }

  /** True when the (stripped) physical line is a comment, provided no record has started yet. */
  predicate IsCommentStart(line: string) {
    |line| > 0 && (line[0] == '#' || line[0] == '!')
  }

  /** What one physical line does to the logical line being read. */
  datatype LineKind =
    | Blank                     // empty once leading whitespace is stripped
    | Comment                   // `#` or `!` first, while no record is in progress
    | Continued(piece: string)  // ends in a backslash: the text before it, and the record goes on
    | Final(piece: string)      // any other line: the text that completes the record

  /** The effect of a physical line, given whether a continued record is in progress. */
  function Classify(physical: string, inRecord: bool): (k: LineKind)
    ensures k.Blank? <==> |StripLeading(physical)| == 0
    ensures k.Comment? <==> !inRecord && IsCommentStart(StripLeading(physical))
    ensures k.Continued? ==> k.piece + "\\" == StripLeading(physical)
    ensures k.Final? ==> k.piece == StripLeading(physical) && k.piece[|k.piece| - 1] != '\\'
  {
    var line := StripLeading(physical);
    if |line| == 0 then Blank
    else if !inRecord && IsCommentStart(line) then Comment
    else if line[|line| - 1] == '\\' then
      assert line[..|line| - 1] + "\\" == line;
      Continued(line[..|line| - 1])
    else Final(line)
  }

  /** The text a logical line is made of, or the empty string for null. */
  function TextOf(r: Option<string>): string {
    if r.Some? then r.value else ""
  }

  /**
   * The reading loop from physical line `i` on, with `text` accumulated so
   * far and `inRecord` telling whether a continued line is in progress: the
   * logical line returned and the position of the next unread physical line.
   * (`inRecord` is the negation of both `isNewLine` and `skipEmptyLine` of the
   * source, which always hold the same value.)
   */
  function Scan(lines: seq<string>, i: nat, text: string, inRecord: bool): (r: (Option<string>, nat))
    requires i <= |lines|
    ensures r.1 <= |lines|
    ensures i < |lines| ==> i < r.1
    ensures i == |lines| ==> r.1 == i
    ensures r.0.Some? ==> |r.0.value| > 0
    decreases |lines| - i
  {
    if i == |lines| then (Finish(text), i)
    else
      match Classify(lines[i], inRecord)
      case Blank => if inRecord then (Finish(text), i + 1) else Scan(lines, i + 1, text, inRecord)
      case Comment => Scan(lines, i + 1, text, false)
      case Continued(piece) => Scan(lines, i + 1, text + piece, true)
      case Final(piece) => (Finish(text + piece), i + 1)
  }

  /** One call of `readLine` with the reader at physical line `pos`. */
  function ReadLogical(lines: seq<string>, pos: nat): (Option<string>, nat)
    requires pos <= |lines|
  {
    Scan(lines, pos, "", false)
  }

  /** All logical lines a caller obtains by calling `readLine` until it returns null. */
  function ReadAll(lines: seq<string>, pos: nat): seq<string>
    requires pos <= |lines|
    decreases |lines| - pos
  {
    var (r, next) := ReadLogical(lines, pos);
    if r.None? then [] else [r.value] + ReadAll(lines, next)
  }

  /**
   * The accumulated text only ever grows at its end: running the loop with
   * some text already accumulated gives that text followed by what the loop
   * collects on its own, and consumes the same physical lines.
   */
  lemma {:induction false} ScanAccumulates(lines: seq<string>, i: nat, text: string, inRecord: bool)
    requires i <= |lines|
    ensures Scan(lines, i, text, inRecord).0 == Finish(text + TextOf(Scan(lines, i, "", inRecord).0))
    ensures Scan(lines, i, text, inRecord).1 == Scan(lines, i, "", inRecord).1
    decreases |lines| - i
  {
    if i == |lines| {
      assert text + "" == text;
    } else {
      match Classify(lines[i], inRecord)
      case Blank =>
        if inRecord {
          assert text + "" == text;
        } else {
          ScanAccumulates(lines, i + 1, text, inRecord);
        }
      case Comment =>
        ScanAccumulates(lines, i + 1, text, false);
      case Continued(piece) =>
        StepContinued(lines, i, text, inRecord, piece);
        StepContinued(lines, i, "", inRecord, piece);
        ScanAccumulates(lines, i + 1, text + piece, true);
        ScanAccumulates(lines, i + 1, "" + piece, true);
        ContinuedText(text, piece, TextOf(Scan(lines, i + 1, "", true).0));
      case Final(piece) =>
        StepFinal(lines, i, text, inRecord, piece);
        StepFinal(lines, i, "", inRecord, piece);
        assert TextOf(Finish("" + piece)) == piece;
    }
  }

  /** Text accumulated before a continued line and the text after it end up side by side. */
  lemma ContinuedText(text: string, piece: string, rest: string)
    ensures Finish(text + TextOf(Finish("" + piece + rest))) == Finish(text + piece + rest)
  {
    assert "" + piece + rest == piece + rest;
    assert (text + piece) + rest == text + (piece + rest);
  }

  /** A returned logical line never starts with space, tab or form feed. */
  lemma {:induction false} ScanNoLeadingWhitespace(lines: seq<string>, i: nat, text: string, inRecord: bool)
    requires i <= |lines|
    requires |text| == 0 || !IsLeadingWhitespace(text[0])
    ensures Scan(lines, i, text, inRecord).0.Some? ==> !IsLeadingWhitespace(Scan(lines, i, text, inRecord).0.value[0])
    decreases |lines| - i
  {
    if i < |lines| {
      match Classify(lines[i], inRecord)
      case Blank =>
        if !inRecord {
          ScanNoLeadingWhitespace(lines, i + 1, text, inRecord);
        }
      case Comment =>
        ScanNoLeadingWhitespace(lines, i + 1, text, false);
      case Continued(piece) =>
        assert |piece| > 0 ==> piece[0] == StripLeading(lines[i])[0];
        ScanNoLeadingWhitespace(lines, i + 1, text + piece, true);
      case Final(piece) =>
    }
  }

  /** `readLine` never returns a line starting with space, tab or form feed. */
  lemma ReadLogicalNoLeadingWhitespace(lines: seq<string>, pos: nat)
    requires pos <= |lines|
    ensures ReadLogical(lines, pos).0.Some? ==> !IsLeadingWhitespace(ReadLogical(lines, pos).0.value[0])
  {
    ScanNoLeadingWhitespace(lines, pos, "", false);
  }

  /** Blank lines and comment lines before a record are skipped without being consumed as content. */
  lemma ReadLogicalSkipsBlankAndComment(lines: seq<string>, pos: nat)
    requires pos < |lines|
    requires |StripLeading(lines[pos])| == 0 || IsCommentStart(StripLeading(lines[pos]))
    ensures ReadLogical(lines, pos) == ReadLogical(lines, pos + 1)
  {
  }

  /**
   * A line ending in a backslash contributes its text without that
   * backslash, and the rest of the record follows without separator.
   */
  lemma ReadLogicalContinues(lines: seq<string>, pos: nat)
    requires pos < |lines|
    requires var line := StripLeading(lines[pos]);
             |line| > 0 && !IsCommentStart(line) && line[|line| - 1] == '\\'
    ensures var line := StripLeading(lines[pos]);
            ReadLogical(lines, pos).0 == Finish(line[..|line| - 1] + TextOf(Scan(lines, pos + 1, "", true).0))
    ensures ReadLogical(lines, pos).1 == Scan(lines, pos + 1, "", true).1
  {
    var line := StripLeading(lines[pos]);
    var piece := Classify(lines[pos], false).piece;
    assert piece == line[..|line| - 1] by {
      assert piece + "\\" == line;
      assert (piece + "\\")[..|line| - 1] == piece;
    }
    assert "" + piece == piece;
    ScanAccumulates(lines, pos + 1, piece, true);
  }

  /**
   * Inside a record every further line is content: a line that looks like
   * a comment is appended, and a line without a trailing backslash ends the
   * record.
   */
  lemma ContinuationKeepsCommentLike(lines: seq<string>, i: nat, text: string)
    requires i < |lines|
    requires |StripLeading(lines[i])| > 0
    requires StripLeading(lines[i])[|StripLeading(lines[i])| - 1] != '\\'
    ensures Scan(lines, i, text, true) == (Some(text + StripLeading(lines[i])), i + 1)
  {
  }

  /** Inside a record an empty (or whitespace-only) line ends it and is consumed. */
  lemma ContinuationEndsAtEmptyLine(lines: seq<string>, i: nat, text: string)
    requires i < |lines|
    requires |StripLeading(lines[i])| == 0
    ensures Scan(lines, i, text, true) == (Finish(text), i + 1)
  {
  }

  /** Once the physical lines are used up, `readLine` returns null and reads nothing. */
  lemma ExhaustedReturnsNull(lines: seq<string>)
    ensures ReadLogical(lines, |lines|) == (None, |lines|)
  {
  }

  /**
   * A null result not at the end of input can only come from lines that
   * contribute no text: every physical line it consumed was blank, a
   * comment, or a bare backslash.
   */
  lemma {:induction false} ScanNone(lines: seq<string>, i: nat, inRecord: bool)
    requires i <= |lines|
    requires Scan(lines, i, "", inRecord).0.None?
    ensures forall k :: i <= k < Scan(lines, i, "", inRecord).1 ==>
              var line := StripLeading(lines[k]);
              |line| == 0 || IsCommentStart(line) || line == "\\"
    decreases |lines| - i
  {
    if i < |lines| {
      match Classify(lines[i], inRecord)
      case Blank =>
        if !inRecord {
          ScanNone(lines, i + 1, inRecord);
        }
      case Comment =>
        ScanNone(lines, i + 1, false);
      case Continued(piece) =>
        ScanAccumulates(lines, i + 1, piece, true);
        assert "" + piece == piece;
        assert |piece| == 0;
        assert piece + "\\" == "\\";
        ScanNone(lines, i + 1, true);
      case Final(piece) =>
    }
  }

  /** Stripping drops exactly a whitespace prefix in front of text that starts otherwise. */
  lemma {:induction false} StripLeadingIndented(indent: string, rest: string)
    requires forall k :: 0 <= k < |indent| ==> IsLeadingWhitespace(indent[k])
    requires |rest| == 0 || !IsLeadingWhitespace(rest[0])
    ensures StripLeading(indent + rest) == rest
    decreases |indent|
  {
    if |indent| > 0 {
      assert (indent + rest)[1..] == indent[1..] + rest;
      StripLeadingIndented(indent[1..], rest);
    } else {
      assert indent + rest == rest;
    }
  }

  /** An indented line that ends in a backslash, outside a comment position, continues the record. */
  lemma ClassifyContinued(indent: string, piece: string, inRecord: bool)
    requires forall k :: 0 <= k < |indent| ==> IsLeadingWhitespace(indent[k])
    requires |piece| == 0 || (!IsLeadingWhitespace(piece[0]) && (inRecord || !IsCommentStart(piece)))
    ensures Classify(indent + piece + "\\", inRecord) == Continued(piece)
  {
    assert (piece + "\\")[0] == if |piece| == 0 then '\\' else piece[0];
    assert indent + piece + "\\" == indent + (piece + "\\");
    StripLeadingIndented(indent, piece + "\\");
  }

  /** An indented line that does not end in a backslash, outside a comment position, completes the record. */
  lemma ClassifyFinal(indent: string, piece: string, inRecord: bool)
    requires forall k :: 0 <= k < |indent| ==> IsLeadingWhitespace(indent[k])
    requires |piece| > 0 && !IsLeadingWhitespace(piece[0]) && piece[|piece| - 1] != '\\'
    requires inRecord || !IsCommentStart(piece)
    ensures Classify(indent + piece, inRecord) == Final(piece)
  {
    StripLeadingIndented(indent, piece);
  }

  /** The classification of a physical line, read off its stripped form by the checks `readLine` makes. */
  lemma ClassifyStripped(physical: string, line: string, inRecord: bool)
    requires line == StripLeading(physical)
    ensures Classify(physical, inRecord)
            == if |line| == 0 then Blank
               else if !inRecord && (line[0] == '#' || line[0] == '!') then Comment
               else if line[|line| - 1] == '\\' then Continued(line[..|line| - 1])
               else Final(line)
  {
  }

  /** A skipped line (a comment, or a blank line before a record) leaves the text as it is. */
  lemma StepSkip(lines: seq<string>, i: nat, text: string)
    requires i < |lines| && Classify(lines[i], false) in {Blank, Comment}
    ensures Scan(lines, i, text, false) == Scan(lines, i + 1, text, false)
  {
  }

  /** A continued line appends its piece and keeps the record open. */
  lemma StepContinued(lines: seq<string>, i: nat, text: string, inRecord: bool, piece: string)
    requires i < |lines| && Classify(lines[i], inRecord) == Continued(piece)
    ensures Scan(lines, i, text, inRecord) == Scan(lines, i + 1, text + piece, true)
  {
  }

  /** A blank line inside a continued record ends it. */
  lemma StepBlankEnds(lines: seq<string>, i: nat, text: string)
    requires i < |lines| && Classify(lines[i], true) == Blank
    ensures Scan(lines, i, text, true) == (Finish(text), i + 1)
  {
  }

  /** A final line appends its piece and completes the record. */
  lemma StepFinal(lines: seq<string>, i: nat, text: string, inRecord: bool, piece: string)
    requires i < |lines| && Classify(lines[i], inRecord) == Final(piece)
    ensures Scan(lines, i, text, inRecord) == (Finish(text + piece), i + 1)
  {
  }

  lemma SampleFirstRecord(f: seq<string>)
    requires |f| == 17 && f[0] == "# leading comment" && f[1] == "firstKey=firstValue"
    ensures ReadLogical(f, 0) == (Some("firstKey=firstValue"), 2)
  {
    assert Classify(f[0], false) == Comment;
    StepSkip(f, 0, "");
    ClassifyFinal("", "firstKey=firstValue", false);
    StepFinal(f, 1, "", false, "firstKey=firstValue");
    assert "" + "firstKey=firstValue" == "firstKey=firstValue";
  }

  lemma SampleSecondRecord(f: seq<string>)
    requires |f| == 17 && f[2] == "" && f[3] == "secondKey=Value to be \\" && f[4] == "    continued"
    ensures ReadLogical(f, 2) == (Some("secondKey=Value to be continued"), 5)
  {
    var a := "secondKey=Value to be ";
    calc {
      ReadLogical(f, 2);
    ==  { assert Classify(f[2], false) == Blank; StepSkip(f, 2, ""); }
      Scan(f, 3, "", false);
    ==  { ClassifyContinued("", a, false);
          SecondRecordText(a);
          StepContinued(f, 3, "", false, a); }
      Scan(f, 4, "" + a, true);
    ==  { ClassifyFinal("    ", "continued", true);
          assert f[4] == "    " + "continued";
          StepFinal(f, 4, "" + a, true, "continued"); }
      (Finish("" + a + "continued"), 5);
    ==  { SecondRecordText(a); }
      (Some("secondKey=Value to be continued"), 5);
    }
  }

  lemma SecondRecordText(a: string)
    requires a == "secondKey=Value to be "
    ensures "secondKey=Value to be \\" == "" + a + "\\"
    ensures "" + a + "continued" == "secondKey=Value to be continued"
  {
  }

  lemma SampleThirdRecord(f: seq<string>)
    requires |f| == 17 && f[5] == "thirdKey=Value with \\" && f[6] == "#comment line"
    ensures ReadLogical(f, 5) == (Some("thirdKey=Value with #comment line"), 7)
  {
    var b := "thirdKey=Value with ";
    calc {
      ReadLogical(f, 5);
    ==  { ClassifyContinued("", b, false);
          ThirdRecordText(b);
          StepContinued(f, 5, "", false, b); }
      Scan(f, 6, "" + b, true);
    ==  { ClassifyFinal("", "#comment line", true);
          assert f[6] == "" + "#comment line";
          StepFinal(f, 6, "" + b, true, "#comment line"); }
      (Finish("" + b + "#comment line"), 7);
    ==  { ThirdRecordText(b); }
      (Some("thirdKey=Value with #comment line"), 7);
    }
  }

  lemma ThirdRecordText(b: string)
    requires b == "thirdKey=Value with "
    ensures "thirdKey=Value with \\" == "" + b + "\\"
    ensures "" + b + "#comment line" == "thirdKey=Value with #comment line"
  {
  }

  lemma SampleFourthRecord(f: seq<string>)
    requires |f| == 17 && f[7] == "! another comment" && f[8] == "fourthKey=Multiline \\"
             && f[9] == "\tvalue over \\" && f[10] == "  three lines"
    ensures ReadLogical(f, 7) == (Some("fourthKey=Multiline value over three lines"), 11)
  {
    var c := "fourthKey=Multiline ";
    assert Classify(f[7], false) == Comment;
    StepSkip(f, 7, "");
    ClassifyContinued("", c, false);
    assert f[8] == "" + c + "\\";
    StepContinued(f, 8, "", false, c);
    SampleFourthRecordTail(f, "" + c);
    FourthRecordText(c, "value over ");
  }

  lemma SampleFourthRecordTail(f: seq<string>, text: string)
    requires |f| == 17 && f[9] == "\tvalue over \\" && f[10] == "  three lines"
    ensures Scan(f, 9, text, true) == (Finish(text + "value over " + "three lines"), 11)
  {
    var v := "value over ";
    calc {
      Scan(f, 9, text, true);
    ==  { ClassifyContinued("\t", v, true);
          assert f[9] == "\t" + v + "\\";
          StepContinued(f, 9, text, true, v); }
      Scan(f, 10, text + v, true);
    ==  { ClassifyFinal("  ", "three lines", true);
          assert f[10] == "  " + "three lines";
          StepFinal(f, 10, text + v, true, "three lines"); }
      (Finish(text + v + "three lines"), 11);
    }
  }

  lemma FourthRecordText(c: string, v: string)
    requires c == "fourthKey=Multiline " && v == "value over "
    ensures "" + c + v + "three lines" == "fourthKey=Multiline value over three lines"
  {
  }

  lemma SampleFifthRecord(f: seq<string>)
    requires |f| == 17 && f[11] == "fifthKey=Multiline value \\" && f[12] == "\\"
             && f[13] == "with empty lines \\" && f[14] == "  \\" && f[15] == "in between"
    ensures ReadLogical(f, 11) == (Some("fifthKey=Multiline value with empty lines in between"), 16)
  {
    var d := "fifthKey=Multiline value ";
    calc {
      ReadLogical(f, 11);
    ==  { ClassifyContinued("", d, false);
          assert f[11] == "" + d + "\\";
          StepContinued(f, 11, "", false, d); }
      Scan(f, 12, "" + d, true);
    ==  { ClassifyContinued("", "", true);
          assert f[12] == "" + "" + "\\";
          StepContinued(f, 12, "" + d, true, ""); }
      Scan(f, 13, "" + d + "", true);
    ==  { SampleFifthRecordTail(f, "" + d + ""); }
      (Finish("" + d + "" + "with empty lines " + "in between"), 16);
    ==  { FifthRecordText(d, "with empty lines "); }
      (Some("fifthKey=Multiline value with empty lines in between"), 16);
    }
  }

  lemma SampleFifthRecordTail(f: seq<string>, text: string)
    requires |f| == 17 && f[13] == "with empty lines \\" && f[14] == "  \\" && f[15] == "in between"
    ensures Scan(f, 13, text, true) == (Finish(text + "with empty lines " + "in between"), 16)
  {
    var e := "with empty lines ";
    calc {
      Scan(f, 13, text, true);
    ==  { ClassifyContinued("", e, true);
          assert f[13] == "" + e + "\\";
          StepContinued(f, 13, text, true, e); }
      Scan(f, 14, text + e, true);
    ==  { ClassifyContinued("  ", "", true);
          assert f[14] == "  " + "" + "\\";
          StepContinued(f, 14, text + e, true, "");
          assert text + e + "" == text + e; }
      Scan(f, 15, text + e, true);
    ==  { ClassifyFinal("", "in between", true);
          assert f[15] == "" + "in between";
          StepFinal(f, 15, text + e, true, "in between"); }
      (Finish(text + e + "in between"), 16);
    }
  }

  lemma FifthRecordText(d: string, e: string)
    requires d == "fifthKey=Multiline value " && e == "with empty lines "
    ensures "" + d + "" + e + "in between" == "fifthKey=Multiline value with empty lines in between"
  {
    assert "" + d + "" + e == d + e;
  }

  lemma SampleEnd(f: seq<string>)
    requires |f| == 17 && f[16] == "   "
    ensures ReadLogical(f, 16) == (None, 17)
  {
    StripLeadingIndented("   ", "");
    assert f[16] == "   " + "";
    assert Classify(f[16], false) == Blank;
    StepSkip(f, 16, "");
  }

  /** Five records read one after the other, then null: `ReadAll` lists the five. */
  lemma ReadAllFive(f: seq<string>, p1: nat, p2: nat, p3: nat, p4: nat, p5: nat,
                    x0: string, x1: string, x2: string, x3: string, x4: string)
    requires p1 <= p2 <= p3 <= p4 <= p5 <= |f|
    requires ReadLogical(f, 0) == (Some(x0), p1) && ReadLogical(f, p1) == (Some(x1), p2)
    requires ReadLogical(f, p2) == (Some(x2), p3) && ReadLogical(f, p3) == (Some(x3), p4)
    requires ReadLogical(f, p4) == (Some(x4), p5) && ReadLogical(f, p5).0.None?
    ensures ReadAll(f, 0) == [x0, x1, x2, x3, x4]
  {
    ReadAllNone(f, p5);
    ReadAllStep(f, p4, x4, p5);
    ReadAllStep(f, p3, x3, p4);
    ReadAllStep(f, p2, x2, p3);
    ReadAllStep(f, p1, x1, p2);
    ReadAllStep(f, 0, x0, p1);
    Chain(ReadAll(f, 0), ReadAll(f, p1), ReadAll(f, p2), ReadAll(f, p3), ReadAll(f, p4), ReadAll(f, p5),
          x0, x1, x2, x3, x4);
  }

  lemma Chain(a0: seq<string>, a1: seq<string>, a2: seq<string>, a3: seq<string>, a4: seq<string>,
              a5: seq<string>, x0: string, x1: string, x2: string, x3: string, x4: string)
    requires a0 == [x0] + a1 && a1 == [x1] + a2 && a2 == [x2] + a3
    requires a3 == [x3] + a4 && a4 == [x4] + a5 && a5 == []
    ensures a0 == [x0, x1, x2, x3, x4]
  {
  }

  /** Reading null at `pos` ends the list. */
  lemma ReadAllNone(f: seq<string>, pos: nat)
    requires pos <= |f| && ReadLogical(f, pos).0.None?
    ensures ReadAll(f, pos) == []
  {
  }

  /** A logical line read at `pos` heads the list of all logical lines from `pos`. */
  lemma ReadAllStep(f: seq<string>, pos: nat, x: string, next: nat)
    requires pos <= |f| && ReadLogical(f, pos) == (Some(x), next)
    ensures next <= |f| && ReadAll(f, pos) == [x] + ReadAll(f, next)
  {
  }

  /**
   * On physical lines shaped like the test resource of the plugin (a leading
   * comment, blank lines, continuations with indented follow-up lines, a
   * comment-like line inside a continued value, and bare-backslash lines for
   * the "empty lines in between" of the fifth record), five calls return the
   * five expected logical lines and the sixth returns null.
   */
  lemma SampleFileLogicalLines(f: seq<string>)
    requires |f| == 17
    requires f[0] == "# leading comment" && f[1] == "firstKey=firstValue" && f[2] == ""
    requires f[3] == "secondKey=Value to be \\" && f[4] == "    continued"
    requires f[5] == "thirdKey=Value with \\" && f[6] == "#comment line"
    requires f[7] == "! another comment" && f[8] == "fourthKey=Multiline \\"
    requires f[9] == "\tvalue over \\" && f[10] == "  three lines"
    requires f[11] == "fifthKey=Multiline value \\" && f[12] == "\\"
    requires f[13] == "with empty lines \\" && f[14] == "  \\" && f[15] == "in between"
    requires f[16] == "   "
    ensures ReadAll(f, 0) ==
      [ "firstKey=firstValue",
        "secondKey=Value to be continued",
        "thirdKey=Value with #comment line",
        "fourthKey=Multiline value over three lines",
        "fifthKey=Multiline value with empty lines in between" ]
  {
    SampleFirstRecord(f);
    SampleSecondRecord(f);
    SampleThirdRecord(f);
    SampleFourthRecord(f);
    SampleFifthRecord(f);
    SampleEnd(f);
    ReadAllFive(f, 2, 5, 7, 11, 16,
      "firstKey=firstValue",
      "secondKey=Value to be continued",
      "thirdKey=Value with #comment line",
      "fourthKey=Multiline value over three lines",
      "fifthKey=Multiline value with empty lines in between");
  }

  /** A reader over a fixed list of physical lines and a cursor into it. */
  class PropertiesLineReader {
    /** The physical lines of the file, in order. */
    const lines: seq<string>
    /** The index of the next physical line the underlying reader delivers. */
    var pos: nat

    ghost predicate Valid()
      reads this
    {
      pos <= |lines|
    }

    constructor (lines: seq<string>)
      ensures Valid() && this.lines == lines && pos == 0
    {
      this.lines := lines;
      pos := 0;
    }

    /**
     * Returns the next logical line, or None (null) when no text was
     * accumulated; consumes exactly the physical lines the specification
     * function says, strictly in order.
     */
    method ReadLine() returns (r: Option<string>)
      requires Valid()
      modifies this
      ensures Valid()
      ensures (r, pos) == ReadLogical(lines, old(pos))
      ensures old(pos) < |lines| ==> old(pos) < pos
    {
      var logicalLine := "";
      var isNewLine, skipWhitespace, skipEmptyLine := true, true, true;
      var next := pos;
      ghost var outcome := ReadLogical(lines, pos);
      while next < |lines|
        invariant old(pos) <= next <= |lines|
        invariant skipWhitespace && isNewLine == skipEmptyLine
        invariant outcome == Scan(lines, next, logicalLine, !isNewLine)
        decreases |lines| - next
      {
        ghost var i, text, inRecord := next, logicalLine, !isNewLine;
        var line := lines[next];
        next := next + 1;
        if skipWhitespace && |line| > 0 {
          line := StripLeadingWhitespace(line);
        } else {
          assert line == StripLeading(lines[next - 1]);
        }
        ClassifyStripped(lines[i], line, inRecord);
        if |line| == 0 {
          if skipEmptyLine {
            StepSkip(lines, i, text);
            continue;
          }
          StepBlankEnds(lines, i, text);
          break;
        }
        if isNewLine {
          isNewLine := false;
          if line[0] == '#' || line[0] == '!' {
            isNewLine := true;
            StepSkip(lines, i, text);
            continue;
          }
        }
        if line[|line| - 1] == '\\' {
          StepContinued(lines, i, text, inRecord, line[..|line| - 1]);
          logicalLine := logicalLine + line[..|line| - 1];
          skipWhitespace := true;
        } else {
          StepFinal(lines, i, text, inRecord, line);
          logicalLine := logicalLine + line;
          break;
        }
        skipEmptyLine := false;
      }
      pos := next;
      r := if |logicalLine| > 0 then Some(logicalLine) else None;
    }
  }

  /**
   * The scan that drops leading space, tab and form feed from a non-empty
   * physical line: a line of whitespace only becomes empty.
   */
  method StripLeadingWhitespace(line: string) returns (stripped: string)
    requires |line| > 0
    ensures stripped == StripLeading(line)
  {
    var lineStartIdx := 0;
    var c := line[lineStartIdx];
    while IsLeadingWhitespace(c) && lineStartIdx + 1 < |line|
      invariant 0 <= lineStartIdx < |line| && c == line[lineStartIdx]
      invariant StripLeading(line) == StripLeading(line[lineStartIdx..])
    {
      lineStartIdx := lineStartIdx + 1;
      c := line[lineStartIdx];
    }
    if IsLeadingWhitespace(c) {
      stripped := "";
    } else {
      stripped := line[lineStartIdx..];
    }
  }
}
