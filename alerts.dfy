/**
 * `add_alerts`: a line-by-line rewrite of an iCalendar (RFC 5545) document
 * that puts a display alarm (RFC 5545 section 3.6.6) firing five minutes
 * before the start of the event (a TRIGGER of the negative duration -PT5M,
 * RFC 5545 sections 3.8.6.3 and 3.3.6) just before the end of every event.
 *
 * The document is cut with `lines()`, every line that is exactly
 * `END:VEVENT` is replaced by the alarm block followed by `END:VEVENT`
 * again, every other line is kept, and the lines are joined with single
 * line feeds.
 */
module Alerts {
  import opened StrLines

  /** The line that closes an event. */
  const Marker: string := "END:VEVENT"

  /** What a marker line is replaced by: the alarm, then the marker again. */
  const AlarmBlock: string :=
    "BEGIN:VALARM\n" + "TRIGGER:-PT5M\n" + "ACTION:DISPLAY\n" + "END:VALARM\n" + "END:VEVENT"

  /** The lines of `AlarmBlock`, one by one. */
  const AlarmLines: seq<string> := ["BEGIN:VALARM", "TRIGGER:-PT5M", "ACTION:DISPLAY", "END:VALARM", "END:VEVENT"]

  /** The closure passed to `map`: a line is rewritten exactly when it is the marker. */
  function Expand(line: string): (r: string)
    ensures (r == line) == (line != Marker)
  {
    if line == Marker then AlarmBlock else line
  }

  /** `Expand` applied to every line, in order. */
  function ExpandAll(ls: seq<string>): seq<string>
  {
    seq(|ls|, k requires 0 <= k < |ls| => Expand(ls[k]))
  }

  /** The rewritten document. */
  function AddAlerts(ics: string): (r: string)
    ensures ics == [] ==> r == []
  {
    Join(ExpandAll(Lines(ics)), [LF])
  }

  // ---------------------------------------------------------------------
  // Reference reading: the output as a list of lines

  /** The lines that one input line stands for in the output. */
  function ExpandLine(line: string): seq<string>
  {
    if line == Marker then AlarmLines else [line]
  }

  /** The output lines for the input lines `ls`. */
  function ExpandedLines(ls: seq<string>): seq<string>
  {
    if ls == [] then [] else ExpandLine(ls[0]) + ExpandedLines(ls[1..])
  }

  /** How many lines of `ls` are exactly the marker. */
  function MarkerCount(ls: seq<string>): nat
  {
    if ls == [] then 0 else (if ls[0] == Marker then 1 else 0) + MarkerCount(ls[1..])
  }

  /** Where the output lines for input line `i` begin. */
  function Position(ls: seq<string>, i: nat): nat
    requires i <= |ls|
  {
    i + 4 * MarkerCount(ls[..i])
  }

  // ---------------------------------------------------------------------
  // The alarm block

  /** The replacement text is the five alarm lines joined by line feeds. */
  lemma AlarmBlockJoin()
    ensures AlarmBlock == Join(AlarmLines, [LF])
  {
    var tail := AlarmLines[1..];
    assert Join(tail[1..][1..], [LF]) == "END:VALARM" + [LF] + "END:VEVENT";
    assert Join(tail[1..], [LF]) == "ACTION:DISPLAY" + [LF] + Join(tail[1..][1..], [LF]);
    assert Join(tail, [LF]) == "TRIGGER:-PT5M" + [LF] + Join(tail[1..], [LF]);
    assert "BEGIN:VALARM\n" == "BEGIN:VALARM" + [LF];
    assert "TRIGGER:-PT5M\n" == "TRIGGER:-PT5M" + [LF];
    assert "ACTION:DISPLAY\n" == "ACTION:DISPLAY" + [LF];
    assert "END:VALARM\n" == "END:VALARM" + [LF];
  }

  /** Read back at its line feeds, the replacement text is the five alarm lines, the restored marker last. */
  lemma AlarmBlockLines()
    ensures Split(AlarmBlock) == AlarmLines
    ensures |AlarmLines| == 5 && AlarmLines[4] == Marker
  {
    assert NoLF(AlarmLines);
    AlarmBlockJoin();
    SplitOfJoin(AlarmLines);
  }

  /** Cutting one rewritten line at its line feeds gives its reference lines. */
  lemma ExpandSplit(line: string)
    requires LF !in line
    ensures Split(Expand(line)) == ExpandLine(line)
  {
    if line == Marker {
      AlarmBlockLines();
    } else {
      SplitNoNewline(line);
    }
  }

  // ---------------------------------------------------------------------
  // The output, line by line

  lemma ExpandAllCons(ls: seq<string>)
    requires ls != []
    ensures ExpandAll(ls) == [Expand(ls[0])] + ExpandAll(ls[1..])
  {
  }

  lemma {:induction false} SplitJoinExpandAll(ls: seq<string>)
    requires ls != [] && NoLF(ls)
    ensures Split(Join(ExpandAll(ls), [LF])) == ExpandedLines(ls)
  {
    ExpandSplit(ls[0]);
    if |ls| > 1 {
      ExpandAllCons(ls);
      JoinCons(Expand(ls[0]), ExpandAll(ls[1..]));
      SplitAppend(Expand(ls[0]), Join(ExpandAll(ls[1..]), [LF]));
      SplitJoinExpandAll(ls[1..]);
    }
  }

  /**
   * The output, cut at its line feeds, is the input's lines with every
   * marker line replaced by the five alarm lines and every other line kept.
   */
  lemma AddAlertsLines(ics: string)
    requires ics != []
    ensures Split(AddAlerts(ics)) == ExpandedLines(Lines(ics))
  {
    LinesNoLF(ics);
    SplitJoinExpandAll(Lines(ics));
  }

  lemma {:induction false} ExpandedLinesAppend(a: seq<string>, b: seq<string>)
    ensures ExpandedLines(a + b) == ExpandedLines(a) + ExpandedLines(b)
  {
    if a != [] {
      assert (a + b)[0] == a[0] && (a + b)[1..] == a[1..] + b;
      ExpandedLinesAppend(a[1..], b);
    } else {
      assert a + b == b;
    }
  }

  lemma {:induction false} MarkerCountAppend(a: seq<string>, b: seq<string>)
    ensures MarkerCount(a + b) == MarkerCount(a) + MarkerCount(b)
  {
    if a != [] {
      assert (a + b)[0] == a[0] && (a + b)[1..] == a[1..] + b;
      MarkerCountAppend(a[1..], b);
    } else {
      assert a + b == b;
    }
  }

  /** Every marker adds four lines to the output; no other line changes the count. */
  lemma {:induction false} ExpandedLinesLength(ls: seq<string>)
    ensures |ExpandedLines(ls)| == |ls| + 4 * MarkerCount(ls)
  {
    if ls != [] {
      ExpandedLinesLength(ls[1..]);
    }
  }

  /** The output lines for input line `i` sit, unchanged, at `Position(ls, i)`. */
  lemma ExpandedLinesAt(ls: seq<string>, i: nat)
    requires i < |ls|
    ensures Position(ls, i) + |ExpandLine(ls[i])| <= |ExpandedLines(ls)|
    ensures ExpandedLines(ls)[Position(ls, i)..Position(ls, i) + |ExpandLine(ls[i])|] == ExpandLine(ls[i])
  {
    var before, here, after := ls[..i], ExpandLine(ls[i]), ls[i + 1..];
    assert ls == before + ([ls[i]] + after);
    ExpandedLinesAppend(before, [ls[i]] + after);
    ExpandedLinesAppend([ls[i]], after);
    assert ExpandedLines([ls[i]]) == here;
    var out := ExpandedLines(before) + here + ExpandedLines(after);
    assert ExpandedLines(ls) == out;
    ExpandedLinesLength(before);
    assert |ExpandedLines(before)| == Position(ls, i);
    SliceMiddle(ExpandedLines(before), here, ExpandedLines(after));
  }

  /** The output lines of earlier input lines come before those of later ones. */
  lemma PositionOrder(ls: seq<string>, i: nat, j: nat)
    requires i < j <= |ls|
    ensures Position(ls, i) + |ExpandLine(ls[i])| <= Position(ls, j)
  {
    assert ls[..j] == ls[..i] + [ls[i]] + ls[i + 1..j];
    MarkerCountAppend(ls[..i] + [ls[i]], ls[i + 1..j]);
    MarkerCountAppend(ls[..i], [ls[i]]);
  }

  /**
   * The line count of the output: the input's lines plus four for every
   * marker line.
   */
  lemma AddAlertsLineCount(ics: string)
    requires ics != []
    ensures |Split(AddAlerts(ics))| == |Lines(ics)| + 4 * MarkerCount(Lines(ics))
  {
    AddAlertsLines(ics);
    ExpandedLinesLength(Lines(ics));
  }

  /** A line other than the marker appears verbatim at its position in the output. */
  lemma AddAlertsKeepsLine(ics: string, i: nat)
    requires i < |Lines(ics)| && Lines(ics)[i] != Marker
    ensures Position(Lines(ics), i) < |Split(AddAlerts(ics))|
    ensures Split(AddAlerts(ics))[Position(Lines(ics), i)] == Lines(ics)[i]
  {
    AddAlertsLines(ics);
    ExpandedLinesKeep(Lines(ics), i);
  }

  lemma ExpandedLinesKeep(ls: seq<string>, i: nat)
    requires i < |ls| && ls[i] != Marker
    ensures Position(ls, i) < |ExpandedLines(ls)|
    ensures ExpandedLines(ls)[Position(ls, i)] == ls[i]
  {
    var p, out := Position(ls, i), ExpandedLines(ls);
    ExpandedLinesAt(ls, i);
    assert ExpandLine(ls[i]) == [ls[i]];
    assert out[p..p + 1] == [ls[i]];
    assert out[p] == out[p..p + 1][0];
  }

  /**
   * Every marker line becomes the same alarm block at its position in the
   * output, ending with the restored marker: no per-event variation.
   */
  lemma AddAlertsMarkerBlock(ics: string, i: nat)
    requires i < |Lines(ics)| && Lines(ics)[i] == Marker
    ensures Position(Lines(ics), i) + 5 <= |Split(AddAlerts(ics))|
    ensures Split(AddAlerts(ics))[Position(Lines(ics), i)..Position(Lines(ics), i) + 5] == AlarmLines
  {
    AddAlertsLines(ics);
    ExpandedLinesAt(Lines(ics), i);
  }

  /** No marker, bare line feeds, no final line ending: the output is the input. */
  lemma AddAlertsUnchanged(ics: string)
    requires MarkerCount(Lines(ics)) == 0
    requires !HasCRLF(ics) && !EndsWithLF(ics)
    ensures AddAlerts(ics) == ics
  {
    NoMarkerExpandAll(Lines(ics));
    JoinOfLines(ics);
  }

  lemma {:induction false} NoMarkerExpandAll(ls: seq<string>)
    requires MarkerCount(ls) == 0
    ensures ExpandAll(ls) == ls
  {
    if ls != [] {
      NoMarkerExpandAll(ls[1..]);
    }
  }

  /**
   * A document with CR LF line endings comes back with bare line feeds and
   * without a final line ending; only marker lines change.
   */
  lemma AddAlertsCRLF(ls: seq<string>)
    requires NoLF(ls)
    ensures AddAlerts(Terminated(ls, [CR, LF])) == Join(ExpandAll(ls), [LF])
    ensures MarkerCount(ls) == 0 ==> AddAlerts(Terminated(ls, [CR, LF])) == Join(ls, [LF])
  {
    LinesOfCRLF(ls);
    if MarkerCount(ls) == 0 {
      NoMarkerExpandAll(ls);
    }
  }

  /**
   * A final line that ends in a lone `\r`, with no line feed after it, keeps
   * that `\r`, so it is never the marker: `END:VEVENT\r` stays as it is.
   */
  lemma AddAlertsFinalCR(line: string)
    requires LF !in line
    ensures AddAlerts(line + [CR]) == line + [CR]
  {
    var s := line + [CR];
    assert LF !in s;
    FindNewlineNone(s);
    assert Lines(s) == [s];
    assert s[|s| - 1] != Marker[|Marker| - 1];
    assert ExpandAll([s]) == [s];
  }

  /** A document that is its lines joined by bare line feeds is rewritten line by line. */
  lemma AddAlertsOfJoin(ls: seq<string>)
    requires JoinableLines(ls)
    ensures AddAlerts(Join(ls, [LF])) == Join(ExpandAll(ls), [LF])
  {
    LinesOfJoin(ls);
  }

  const ExampleLines: seq<string> := ["BEGIN:VCALENDAR", "BEGIN:VEVENT", "END:VEVENT", "END:VCALENDAR"]

  lemma ExampleJoinable()
    ensures JoinableLines(ExampleLines)
  {
    forall k | 0 <= k < |ExampleLines|
      ensures LF !in ExampleLines[k] && StripCR(ExampleLines[k]) == ExampleLines[k]
    {
      ExamplePlainLine(ExampleLines[k]);
    }
  }

  lemma ExamplePlainLine(line: string)
    requires line in ExampleLines
    ensures LF !in line && StripCR(line) == line
  {
  }

  lemma ExampleInput()
    ensures Join(ExampleLines, [LF])
         == "BEGIN:VCALENDAR\n" + "BEGIN:VEVENT\n" + "END:VEVENT\n" + "END:VCALENDAR"
  {
    var ls := ExampleLines;
    var p0, p1, p2, c := "BEGIN:VCALENDAR\n", "BEGIN:VEVENT\n", "END:VEVENT\n", "END:VCALENDAR";
    assert Join(ls[1..][1..], [LF]) == "END:VEVENT" + [LF] + c;
    assert Join(ls[1..], [LF]) == "BEGIN:VEVENT" + [LF] + Join(ls[1..][1..], [LF]);
    assert p0 == "BEGIN:VCALENDAR" + [LF];
    assert p1 == "BEGIN:VEVENT" + [LF];
    assert p2 == "END:VEVENT" + [LF];
    Regroup("BEGIN:VCALENDAR", [LF], Join(ls[1..], [LF]));
    Regroup("BEGIN:VEVENT", [LF], Join(ls[1..][1..], [LF]));
    Regroup(p0 + p1, p2, c);
    Regroup(p0, p1, p2 + c);
  }

  const ExampleResult: seq<string> := ["BEGIN:VCALENDAR", "BEGIN:VEVENT", AlarmBlock, "END:VCALENDAR"]

  lemma ExampleMapped()
    ensures ExpandAll(ExampleLines) == ExampleResult
  {
  }

  lemma ExampleJoined()
    ensures Join(ExampleResult, [LF])
         == "BEGIN:VCALENDAR\n" + "BEGIN:VEVENT\n" + "BEGIN:VALARM\n" + "TRIGGER:-PT5M\n"
          + "ACTION:DISPLAY\n" + "END:VALARM\n" + "END:VEVENT\n" + "END:VCALENDAR"
  {
    var rs := ExampleResult;
    var p0, p1, c := "BEGIN:VCALENDAR\n", "BEGIN:VEVENT\n", "END:VCALENDAR";
    var a1, a2, a3, a4 := "BEGIN:VALARM\n", "TRIGGER:-PT5M\n", "ACTION:DISPLAY\n", "END:VALARM\n";
    var a5, a5n := "END:VEVENT", "END:VEVENT\n";
    // the joined lines, regrouped from the right
    assert Join(rs[1..][1..], [LF]) == AlarmBlock + [LF] + c;
    assert Join(rs[1..], [LF]) == "BEGIN:VEVENT" + [LF] + Join(rs[1..][1..], [LF]);
    assert p0 == "BEGIN:VCALENDAR" + [LF];
    assert p1 == "BEGIN:VEVENT" + [LF];
    assert a5n == a5 + [LF];
    Regroup("BEGIN:VCALENDAR", [LF], Join(rs[1..], [LF]));
    Regroup("BEGIN:VEVENT", [LF], Join(rs[1..][1..], [LF]));
    Regroup(AlarmBlock, [LF], c);
    Regroup(a1 + a2 + a3 + a4, a5, [LF] + c);
    Regroup(a5, [LF], c);
    Regroup(a1 + a2 + a3, a4, a5n + c);
    Regroup(a1 + a2, a3, a4 + (a5n + c));
    Regroup(a1, a2, a3 + (a4 + (a5n + c)));
    // the expected text, regrouped from the right
    Regroup(p0 + p1 + a1 + a2 + a3 + a4, a5n, c);
    Regroup(p0 + p1 + a1 + a2 + a3, a4, a5n + c);
    Regroup(p0 + p1 + a1 + a2, a3, a4 + (a5n + c));
    Regroup(p0 + p1 + a1, a2, a3 + (a4 + (a5n + c)));
    Regroup(p0 + p1, a1, a2 + (a3 + (a4 + (a5n + c))));
    Regroup(p0, p1, a1 + (a2 + (a3 + (a4 + (a5n + c)))));
  }

  /** The calendar of the unit test: one event, and its alarm before its end. */
  lemma AddAlertsExample()
    ensures AddAlerts("BEGIN:VCALENDAR\n" + "BEGIN:VEVENT\n" + "END:VEVENT\n" + "END:VCALENDAR")
         == "BEGIN:VCALENDAR\n" + "BEGIN:VEVENT\n" + "BEGIN:VALARM\n" + "TRIGGER:-PT5M\n"
          + "ACTION:DISPLAY\n" + "END:VALARM\n" + "END:VEVENT\n" + "END:VCALENDAR"
  {
    ExampleJoinable();
    ExampleInput();
    AddAlertsOfJoin(ExampleLines);
    ExampleMapped();
    ExampleJoined();
  }
}
