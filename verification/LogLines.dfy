/** The lines of a log file, and what the reader and the scanner of the log make of them. */
module LogLines {
  import opened Wrappers

  type Line = Bytes

  /** The time of a line, if the text before its category is a date. */
  type Stamp = Line -> Option<int>

  const NEWLINE: Byte := 10
  const CARRIAGE_RETURN: Byte := 13

  /** The file cut at every newline. */
  function Split(s: Bytes): (lines: seq<Line>)
    ensures |lines| > 0
  {
    if s == [] then [[]]
    else
      var rest := Split(s[1..]);
      if s[0] == NEWLINE then [[]] + rest else Prepended(s[0], rest)
  }

  function Join(lines: seq<Line>): Bytes
    requires |lines| > 0
  {
    if |lines| == 1 then lines[0] else lines[0] + [NEWLINE] + Join(lines[1..])
  }

  lemma {:induction false} JoinUndoesSplit(s: Bytes)
    ensures Join(Split(s)) == s
  {
    if s == [] {
    } else {
      var first, rest := s[0], s[1..];
      JoinUndoesSplit(rest);
      assert s == [first] + rest;
      SplitFirst(first, rest);
      if first == NEWLINE {
        JoinCons([], Split(rest));
      } else {
        JoinFirst(first, Split(rest));
      }
    }
  }

  lemma JoinCons(line: Line, rest: seq<Line>)
    ensures Join([line] + rest) == if rest == [] then line else line + [NEWLINE] + Join(rest)
  {
    assert ([line] + rest)[1..] == rest;
  }

  lemma JoinPrepended(b: Byte, first: Line, rest: seq<Line>)
    ensures Join([[b] + first] + rest) == [b] + Join([first] + rest)
  {
    JoinCons([b] + first, rest);
    JoinCons(first, rest);
    if rest != [] {
      InFront(b, first, Join(rest));
    }
  }

  lemma InFront(b: Byte, first: Bytes, tail: Bytes)
    ensures ([b] + first) + [NEWLINE] + tail == [b] + (first + [NEWLINE] + tail)
  {}

  lemma FirstAndRest(lines: seq<Line>)
    requires |lines| > 0
    ensures lines == [lines[0]] + lines[1..]
  {}

  lemma JoinFirst(b: Byte, lines: seq<Line>)
    requires |lines| > 0
    ensures Join(Prepended(b, lines)) == [b] + Join(lines)
  {
    var first, rest := lines[0], lines[1..];
    FirstAndRest(lines);
    JoinPrepended(b, first, rest);
  }

  lemma {:induction false} LinesHoldNoNewline(s: Bytes, line: Line)
    requires line in Split(s)
    ensures NEWLINE !in line && forall b :: b in line ==> b in s
  {
    if s == [] {
    } else {
      var rest := Split(s[1..]);
      assert forall b :: b in s[1..] ==> b in s;
      if line in rest {
        LinesHoldNoNewline(s[1..], line);
      } else if s[0] != NEWLINE {
        LinesHoldNoNewline(s[1..], rest[0]);
        assert line == [s[0]] + rest[0];
      }
    }
  }

  lemma {:induction false} SplitOfOneLine(line: Line)
    requires NEWLINE !in line
    ensures Split(line) == [line]
  {
    if line == [] {
    } else {
      SplitOfOneLine(line[1..]);
      assert line == [line[0]] + line[1..];
    }
  }

  lemma SplitFirst(b: Byte, s: Bytes)
    ensures Split([b] + s) == if b == NEWLINE then [[]] + Split(s) else Prepended(b, Split(s))
  {
    assert ([b] + s)[1..] == s;
  }

  /** The lines with one more byte in front of the first. */
  function Prepended(b: Byte, lines: seq<Line>): seq<Line>
    requires |lines| > 0
  {
    [[b] + lines[0]] + lines[1..]
  }

  lemma PrependedConcat(b: Byte, a: seq<Line>, c: seq<Line>)
    requires |a| > 0
    ensures Prepended(b, a + c) == Prepended(b, a) + c
  {}

  lemma FirstByte(a: Bytes, b: Bytes)
    requires a != []
    ensures a == [a[0]] + a[1..] && a + [NEWLINE] + b == [a[0]] + (a[1..] + [NEWLINE] + b)
  {}

  lemma {:induction false} SplitAtNewline(a: Bytes, b: Bytes)
    ensures Split(a + [NEWLINE] + b) == Split(a) + Split(b)
  {
    if a == [] {
      SplitFirst(NEWLINE, b);
      assert a + [NEWLINE] + b == [NEWLINE] + b;
    } else {
      var first, tail := a[0], a[1..];
      FirstByte(a, b);
      SplitAtNewline(tail, b);
      SplitFirst(first, tail + [NEWLINE] + b);
      SplitFirst(first, tail);
      if first == NEWLINE {
        assert [[]] + (Split(tail) + Split(b)) == ([[]] + Split(tail)) + Split(b);
      } else {
        PrependedConcat(first, Split(tail), Split(b));
      }
    }
  }

  lemma {:induction false} SplitUndoesJoin(lines: seq<Line>)
    requires |lines| > 0 && forall line :: line in lines ==> NEWLINE !in line
    ensures Split(Join(lines)) == lines
  {
    SplitOfOneLine(lines[0]);
    if |lines| == 1 {
    } else {
      SplitUndoesJoin(lines[1..]);
      SplitAtNewline(lines[0], Join(lines[1..]));
      assert Join(lines) == lines[0] + [NEWLINE] + Join(lines[1..]);
    }
  }

  // ---------------------------------------------------------------- what the backward reader delivers

  function Reverse(lines: seq<Line>): (r: seq<Line>)
    ensures |r| == |lines|
    ensures forall i :: 0 <= i < |r| ==> r[i] == lines[|lines| - 1 - i]
  {
    if lines == [] then [] else Reverse(lines[1..]) + [lines[0]]
  }

  function WithoutEmptyFirst(lines: seq<Line>): seq<Line>
    requires |lines| > 0
  {
    if lines[0] == [] then lines[1..] else lines
  }

  /** The lines of the file, without an empty first one. */
  function FileLines(s: Bytes): seq<Line> {
    WithoutEmptyFirst(Split(s))
  }

  lemma WithoutEmptyFirstAppend(lines: seq<Line>, line: Line)
    requires |lines| > 0
    ensures WithoutEmptyFirst(lines + [line]) == WithoutEmptyFirst(lines) + [line]
  {
    assert (lines + [line])[0] == lines[0];
    assert (lines + [line])[1..] == lines[1..] + [line];
  }

  lemma ReverseAppend(lines: seq<Line>, line: Line)
    ensures Reverse(lines + [line]) == [line] + Reverse(lines)
  {
    var r := Reverse(lines + [line]);
    assert |r| == 1 + |lines|;
    assert forall i :: 0 <= i < |r| ==> r[i] == ([line] + Reverse(lines))[i];
  }

  lemma LastLineComesFirst(a: Bytes, line: Line)
    requires NEWLINE !in line
    ensures Reverse(FileLines(a + [NEWLINE] + line)) == [line] + Reverse(FileLines(a))
  {
    SplitAtNewline(a, line);
    SplitOfOneLine(line);
    WithoutEmptyFirstAppend(Split(a), line);
    ReverseAppend(FileLines(a), line);
  }

  /** What a handler says about a line. */
  datatype Verdict<E> = Continue | Stop | Fail(error: E)

  /** The lines given to a handler that may stop early. */
  function Delivered<E>(lines: seq<Line>, handle: Line -> Verdict<E>): seq<Line> {
    if lines == [] then []
    else if handle(lines[0]).Continue? then [lines[0]] + Delivered(lines[1..], handle)
    else [lines[0]]
  }

  /** The error the handler stopped with. */
  function Failure<E>(delivered: seq<Line>, handle: Line -> Verdict<E>): Option<E> {
    if delivered == [] then None
    else
      match handle(delivered[|delivered| - 1])
      case Fail(error) => Some(error)
      case _ => None
  }

  lemma {:induction false} DeliveredPastContinuing<E>(a: seq<Line>, b: seq<Line>, handle: Line -> Verdict<E>)
    requires forall line :: line in a ==> handle(line).Continue?
    ensures Delivered(a + b, handle) == a + Delivered(b, handle)
  {
    if a == [] {
      assert a + b == b;
    } else {
      DeliveredPastContinuing(a[1..], b, handle);
      assert (a + b)[1..] == a[1..] + b;
    }
  }

  /** The first line on which the handler does not go on is the last one it gets; its error, if it has one, is the result. */
  lemma TheFirstStopDecides<E>(a: seq<Line>, line: Line, b: seq<Line>, handle: Line -> Verdict<E>)
    requires (forall l :: l in a ==> handle(l).Continue?) && !handle(line).Continue?
    ensures var delivered := Delivered(a + ([line] + b), handle);
            && delivered == a + [line]
            && Failure(delivered, handle) == match handle(line) case Fail(error) => Some(error) case _ => None
  {
    DeliveredPastContinuing(a, [line] + b, handle);
  }

  /** A newline at the start of the file does not count as a line of its own, and an empty file has none. */
  lemma AnEmptyFirstLineIsDropped(b: Byte, rest: Bytes)
    ensures FileLines([]) == []
    ensures FileLines([b] + rest) == if b == NEWLINE then Split(rest) else Split([b] + rest)
  {
    SplitFirst(b, rest);
  }

  // ---------------------------------------------------------------- lines chosen by time

  predicate IsOlder(line: Line, t: int, stamp: Stamp) {
    stamp(line).Some? && stamp(line).value < t
  }

  predicate IsSince(line: Line, t: int, stamp: Stamp) {
    stamp(line).Some? && stamp(line).value >= t
  }

  /** The lines stamped `t` or later, in order. */
  function LinesSince(lines: seq<Line>, t: int, stamp: Stamp): (r: seq<Line>)
    ensures forall line :: line in r <==> line in lines && IsSince(line, t, stamp)
  {
    if lines == [] then []
    else if IsSince(lines[0], t, stamp) then [lines[0]] + LinesSince(lines[1..], t, stamp)
    else LinesSince(lines[1..], t, stamp)
  }

  lemma {:induction false} LinesSinceConcat(a: seq<Line>, b: seq<Line>, t: int, stamp: Stamp)
    ensures LinesSince(a + b, t, stamp) == LinesSince(a, t, stamp) + LinesSince(b, t, stamp)
  {
    if a == [] {
      assert a + b == b;
    } else {
      LinesSinceConcat(a[1..], b, t, stamp);
      LinesSinceFirst(a[0], a[1..], t, stamp);
      LinesSinceFirst(a[0], a[1..] + b, t, stamp);
      assert a + b == [a[0]] + (a[1..] + b) && a == [a[0]] + a[1..];
    }
  }

  lemma LinesSinceFirst(line: Line, lines: seq<Line>, t: int, stamp: Stamp)
    ensures LinesSince([line] + lines, t, stamp) == (if IsSince(line, t, stamp) then [line] else []) + LinesSince(lines, t, stamp)
  {
    assert ([line] + lines)[1..] == lines;
  }

  /** Where the lines after the last older one start. */
  function AfterLastOlder(lines: seq<Line>, t: int, stamp: Stamp): (k: nat)
    ensures k <= |lines|
    ensures forall i :: k <= i < |lines| ==> !IsOlder(lines[i], t, stamp)
    ensures k > 0 ==> IsOlder(lines[k - 1], t, stamp)
  {
    if lines == [] then 0
    else if IsOlder(lines[|lines| - 1], t, stamp) then |lines|
    else AfterLastOlder(lines[..|lines| - 1], t, stamp)
  }

  /** The well-formed lines after the last well-formed line older than `t`. */
  function RecentLines(lines: seq<Line>, t: int, stamp: Stamp): seq<Line> {
    LinesSince(lines[AfterLastOlder(lines, t, stamp)..], t, stamp)
  }

  /** The times of the well-formed lines never go back. */
  predicate Sorted(lines: seq<Line>, stamp: Stamp) {
    forall i, j :: 0 <= i < j < |lines| && stamp(lines[i]).Some? && stamp(lines[j]).Some? ==>
      stamp(lines[i]).value <= stamp(lines[j]).value
  }

  predicate NoneLaterThan(lines: seq<Line>, t: int, stamp: Stamp) {
    forall i :: 0 <= i < |lines| && stamp(lines[i]).Some? ==> stamp(lines[i]).value <= t
  }

  predicate NoneEarlierThan(lines: seq<Line>, t: int, stamp: Stamp) {
    forall i :: 0 <= i < |lines| && stamp(lines[i]).Some? ==> stamp(lines[i]).value >= t
  }

  lemma {:induction false} LinesSinceIsEmpty(lines: seq<Line>, t: int, stamp: Stamp)
    ensures LinesSince(lines, t, stamp) == [] <==> forall i :: 0 <= i < |lines| ==> !IsSince(lines[i], t, stamp)
  {
    var since := LinesSince(lines, t, stamp);
    if since == [] {
      assert forall i :: 0 <= i < |lines| ==> lines[i] !in since && lines[i] in lines;
    } else {
      assert since[0] in lines;
    }
  }

  lemma {:induction false} NoLineSince(lines: seq<Line>, t: int, stamp: Stamp)
    requires forall i :: 0 <= i < |lines| ==> !IsSince(lines[i], t, stamp)
    ensures LinesSince(lines, t, stamp) == []
  {
    if lines == [] {
    } else {
      NoLineSince(lines[1..], t, stamp);
    }
  }

  /** A part of the lines holds all the lines since `t` exactly if none of them is in the other part. */
  lemma LinesSinceOfPart(lines: seq<Line>, k: nat, t: int, stamp: Stamp)
    requires k <= |lines|
    ensures LinesSince(lines[k..], t, stamp) == LinesSince(lines, t, stamp) <==> forall i :: 0 <= i < k ==> !IsSince(lines[i], t, stamp)
    ensures LinesSince(lines[..k], t, stamp) == LinesSince(lines, t, stamp) <==> forall i :: k <= i < |lines| ==> !IsSince(lines[i], t, stamp)
  {
    var before, after := lines[..k], lines[k..];
    assert lines == before + after;
    assert forall i :: 0 <= i < k ==> before[i] == lines[i];
    assert forall i :: k <= i < |lines| ==> lines[i] == after[i - k];
    LinesSinceOfSum(before, after, t, stamp);
  }

  lemma LinesSinceOfSum(before: seq<Line>, after: seq<Line>, t: int, stamp: Stamp)
    ensures LinesSince(after, t, stamp) == LinesSince(before + after, t, stamp)
            <==> forall i :: 0 <= i < |before| ==> !IsSince(before[i], t, stamp)
    ensures LinesSince(before, t, stamp) == LinesSince(before + after, t, stamp)
            <==> forall i :: 0 <= i < |after| ==> !IsSince(after[i], t, stamp)
  {
    LinesSinceConcat(before, after, t, stamp);
    SuffixOnly(LinesSince(before, t, stamp), LinesSince(after, t, stamp));
    SuffixOnly(LinesSince(after, t, stamp), LinesSince(before, t, stamp));
    LinesSinceIsEmpty(before, t, stamp);
    LinesSinceIsEmpty(after, t, stamp);
  }

  /** The backward search finds all lines since `t` unless one of them stands before an older line. */
  lemma RecentLinesAreAllSince(lines: seq<Line>, t: int, stamp: Stamp)
    ensures RecentLines(lines, t, stamp) == LinesSince(lines, t, stamp)
            <==> forall i :: 0 <= i < AfterLastOlder(lines, t, stamp) ==> !IsSince(lines[i], t, stamp)
  {
    LinesSinceOfPart(lines, AfterLastOlder(lines, t, stamp), t, stamp);
  }

  lemma SuffixOnly(a: seq<Line>, b: seq<Line>)
    ensures a + b == b <==> a == []
    ensures b + a == b <==> a == []
  {
    assert a + b == b ==> |a + b| == |b|;
    assert b + a == b ==> |b + a| == |b|;
  }

  lemma RecentLinesOfASortedLog(lines: seq<Line>, t: int, stamp: Stamp)
    requires Sorted(lines, stamp)
    ensures RecentLines(lines, t, stamp) == LinesSince(lines, t, stamp)
  {
    RecentLinesAreAllSince(lines, t, stamp);
  }

  lemma SortedConcat(a: seq<Line>, b: seq<Line>, t: int, stamp: Stamp)
    requires Sorted(a, stamp) && Sorted(b, stamp) && NoneLaterThan(a, t, stamp) && NoneEarlierThan(b, t, stamp)
    ensures Sorted(a + b, stamp)
  {}

  lemma {:induction false} SortedLinesSince(lines: seq<Line>, t: int, stamp: Stamp)
    requires Sorted(lines, stamp)
    ensures Sorted(LinesSince(lines, t, stamp), stamp)
  {
    if lines == [] {
    } else {
      SortedLinesSince(lines[1..], t, stamp);
      if IsSince(lines[0], t, stamp) {
        var rest := LinesSince(lines[1..], t, stamp);
        forall i | 0 <= i < |rest|
          ensures stamp(rest[i]).Some? && stamp(lines[0]).value <= stamp(rest[i]).value
        {
          assert rest[i] in lines[1..];
          var j :| 1 <= j < |lines| && lines[j] == rest[i];
        }
        SortedConcat([lines[0]], rest, stamp(lines[0]).value, stamp);
      }
    }
  }

  /** Every line with a newline behind it. */
  function Written(lines: seq<Line>): Bytes {
    if lines == [] then [] else lines[0] + [NEWLINE] + Written(lines[1..])
  }

  lemma {:induction false} WrittenConcat(a: seq<Line>, b: seq<Line>)
    ensures Written(a + b) == Written(a) + Written(b)
  {
    if a == [] {
      assert a + b == b;
    } else {
      WrittenConcat(a[1..], b);
      assert (a + b)[1..] == a[1..] + b;
    }
  }

  lemma {:induction false} SplitOfWritten(lines: seq<Line>)
    requires forall line :: line in lines ==> NEWLINE !in line
    ensures Split(Written(lines)) == lines + [[]]
  {
    if lines == [] {
    } else {
      SplitOfWritten(lines[1..]);
      SplitOfOneLine(lines[0]);
      SplitAtNewline(lines[0], Written(lines[1..]));
    }
  }

  // ---------------------------------------------------------------- what the line scanner finds

  /** The size of the scanner's buffer; a line that does not fit ends the scan. */
  const MAX_SCAN_TOKEN_SIZE: nat := 64 * 1024

  function WithoutCarriageReturn(line: Line): Line {
    if line != [] && line[|line| - 1] == CARRIAGE_RETURN then line[..|line| - 1] else line
  }

  /** The lines of the file; a newline at the end does not start another one. */
  function TerminatedLines(s: Bytes): seq<Line> {
    var lines := Split(s);
    if lines[|lines| - 1] == [] then lines[..|lines| - 1] else lines
  }

  /** The lines before the first one that is too long. */
  function ShortLines(lines: seq<Line>): seq<Line> {
    if lines == [] || |lines[0]| >= MAX_SCAN_TOKEN_SIZE then [] else [lines[0]] + ShortLines(lines[1..])
  }

  function WithoutCarriageReturns(lines: seq<Line>): seq<Line> {
    if lines == [] then [] else [WithoutCarriageReturn(lines[0])] + WithoutCarriageReturns(lines[1..])
  }

  function ScannedLines(s: Bytes): seq<Line> {
    WithoutCarriageReturns(ShortLines(TerminatedLines(s)))
  }

  lemma TerminatedFirstLine(line: Line, rest: Bytes)
    requires NEWLINE !in line
    ensures TerminatedLines(line + [NEWLINE] + rest) == [line] + TerminatedLines(rest)
    ensures TerminatedLines(line) == if line == [] then [] else [line]
  {
    SplitAtNewline(line, rest);
    SplitOfOneLine(line);
  }

  lemma {:induction false} ShortLinesIsAPrefix(lines: seq<Line>)
    ensures ShortLines(lines) <= lines
    ensures |ShortLines(lines)| < |lines| ==> |lines[|ShortLines(lines)|]| >= MAX_SCAN_TOKEN_SIZE
  {
    if lines == [] || |lines[0]| >= MAX_SCAN_TOKEN_SIZE {
    } else {
      ShortLinesIsAPrefix(lines[1..]);
      assert lines == [lines[0]] + lines[1..];
    }
  }

  /** The lines that the scanner finds are, but for carriage returns, the first lines of the file. */
  lemma ShortLinesOfFile(s: Bytes)
    ensures ShortLines(TerminatedLines(s)) <= TerminatedLines(s) <= Split(s)
  {
    ShortLinesIsAPrefix(TerminatedLines(s));
  }
}
