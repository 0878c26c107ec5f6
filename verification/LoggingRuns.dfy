/** The log over whole runs: entries are written and deleted while the clock moves on. */
module LoggingRuns {
  import opened Wrappers
  import opened LogLines
  import opened Logging

  datatype Log = Log(content: Bytes, modTime: int)

  datatype Event =
    | Write(text: Bytes, now: int)
    | Delete(message: int -> Bytes, cutoff: int, now: int)

  function Next(log: Log, e: Event, stamp: Stamp): Log {
    match e
    case Write(text, now) => Log(log.content + text + [NEWLINE], now)
    case Delete(message, cutoff, now) => Log(AfterDeleteLogs(log.content, message, cutoff, now, stamp), now)
  }

  /** The carriage returns at the end of the line do not matter for its date: what is in front of a category has none. */
  predicate KeepsItsDate(line: Line, stamp: Stamp) {
    line == WithoutCarriageReturn(line)
    || (stamp(WithoutCarriageReturn(line)) == stamp(line) && KeepsItsDate(WithoutCarriageReturn(line), stamp))
  }

  predicate KeepTheirDates(lines: seq<Line>, stamp: Stamp) {
    forall i :: 0 <= i < |lines| ==> KeepsItsDate(lines[i], stamp)
  }

  /** The text of an entry made at `t`: a date in front; further lines carry no date of their own. */
  predicate IsEntryOf(text: Bytes, t: int, stamp: Stamp) {
    && KeepTheirDates(Split(text), stamp)
    && forall line :: line in Split(text) && stamp(line).Some? ==> stamp(line) == Some(t)
  }

  predicate EndsWithNewline(s: Bytes) {
    s != [] && s[|s| - 1] == NEWLINE
  }

  /** The clock does not go back and the cutoff is not in the future. */
  predicate CanHappen(log: Log, e: Event, stamp: Stamp) {
    && e.now >= log.modTime
    && match e
       case Write(text, now) => IsEntryOf(text, now, stamp)
       case Delete(message, cutoff, now) =>
         var t := if cutoff == 0 then now else cutoff;
         cutoff <= now && EndsWithNewline(message(t)) && IsEntryOf(message(t)[..|message(t)| - 1], t, stamp)
  }

  predicate IsRun(log: Log, events: seq<Event>, stamp: Stamp)
    decreases |events|
  {
    events == [] || (CanHappen(log, events[0], stamp) && IsRun(Next(log, events[0], stamp), events[1..], stamp))
  }

  function Run(log: Log, events: seq<Event>, stamp: Stamp): Log
    decreases |events|
  {
    if events == [] then log else Run(Next(log, events[0], stamp), events[1..], stamp)
  }

  predicate LogInv(log: Log, stamp: Stamp) {
    && KeepTheirDates(Split(log.content), stamp)
    && (log.content == [] || EndsWithNewline(log.content))
    && Sorted(Split(log.content), stamp)
    && NoneLaterThan(Split(log.content), log.modTime, stamp)
  }

  lemma SplitBehindNewline(a: Bytes)
    ensures Split(a + [NEWLINE]) == Split(a) + [[]]
  {
    SplitAtNewline(a, []);
    assert a + [NEWLINE] + [] == a + [NEWLINE];
  }

  lemma NewlineIsLast(s: Bytes)
    requires EndsWithNewline(s)
    ensures s == s[..|s| - 1] + [NEWLINE]
  {}

  lemma SplitWithLastNewline(s: Bytes)
    requires EndsWithNewline(s)
    ensures Split(s) == Split(s[..|s| - 1]) + [[]]
  {
    var a := s[..|s| - 1];
    NewlineIsLast(s);
    SplitBehindNewline(a);
  }

  lemma AnEntryIsSorted(text: Bytes, t: int, stamp: Stamp)
    requires IsEntryOf(text, t, stamp)
    ensures Sorted(Split(text), stamp) && NoneLaterThan(Split(text), t, stamp) && NoneEarlierThan(Split(text), t, stamp)
  {
    forall i | 0 <= i < |Split(text)| && stamp(Split(text)[i]).Some?
      ensures stamp(Split(text)[i]) == Some(t)
    {
      assert Split(text)[i] in Split(text);
    }
  }

  lemma WriteKeepsInv(log: Log, text: Bytes, now: int, stamp: Stamp)
    requires LogInv(log, stamp) && CanHappen(log, Write(text, now), stamp) && stamp([]).None?
    ensures LogInv(Next(log, Write(text, now), stamp), stamp)
  {
    var s := log.content;
    AnEntryIsSorted(text, now, stamp);
    SplitBehindNewline(s + text);
    var earlier := LinesBefore(s);
    AppendedText(s, text);
    SortedFile(earlier, Split(text), now, now, stamp);
    DatesOfFile(earlier, Split(text), stamp);
  }

  /** The lines of a file that ends with a newline, without the empty one behind it. */
  function LinesBefore(s: Bytes): seq<Line> {
    if s == [] then [] else Split(s)[..|Split(s)| - 1]
  }

  lemma AppendedText(s: Bytes, text: Bytes)
    requires s == [] || EndsWithNewline(s)
    ensures Split(s + text) == LinesBefore(s) + Split(text)
  {
    if s == [] {
      assert s + text == text;
    } else {
      var a := s[..|s| - 1];
      SplitWithLastNewline(s);
      assert LinesBefore(s) == Split(a);
      SplitAtNewline(a, text);
      NewlineIsLast(s);
    }
  }

  /** The lines that survive stand behind the new entry, and they are newer than it. */
  lemma LinesAfterDelete(content: Bytes, message: int -> Bytes, cutoff: int, now: int, stamp: Stamp)
    requires cutoff != 0 && EndsWithNewline(message(cutoff))
    ensures Split(AfterDeleteLogs(content, message, cutoff, now, stamp))
            == Split(message(cutoff)[..|message(cutoff)| - 1]) + Kept(content, cutoff, stamp) + [[]]
  {
    var entry, kept := message(cutoff), Kept(content, cutoff, stamp);
    forall line | line in kept
      ensures NEWLINE !in line
    {
      ScannedHoldNoNewline(content, line);
    }
    SplitOfWritten(kept);
    NewlineIsLast(entry);
    SplitAtNewline(entry[..|entry| - 1], Written(kept));
  }

  lemma ScannedHoldNoNewline(content: Bytes, line: Line)
    requires line in ScannedLines(content)
    ensures NEWLINE !in line
  {
    var short := ShortLines(TerminatedLines(content));
    ShortLinesOfFile(content);
    WithoutCarriageReturnsPart(short, 0);
    var i :| 0 <= i < |short| && ScannedLines(content)[i] == line;
    assert Split(content)[i] == short[i];
    LinesHoldNoNewline(content, short[i]);
  }

  lemma {:induction false} WrittenEndsWithNewline(lines: seq<Line>)
    ensures lines != [] ==> EndsWithNewline(Written(lines))
  {
    if lines == [] {
    } else {
      WrittenEndsWithNewline(lines[1..]);
    }
  }

  /** What the scanner finds carries the dates of the lines it stands for. */
  lemma ScannedKeepDates(content: Bytes, stamp: Stamp)
    requires KeepTheirDates(Split(content), stamp)
    ensures var scanned, lines := ScannedLines(content), Split(content);
            && |scanned| <= |lines| && KeepTheirDates(scanned, stamp)
            && forall i :: 0 <= i < |scanned| ==> stamp(scanned[i]) == stamp(lines[i])
  {
    var short, lines := ShortLines(TerminatedLines(content)), Split(content);
    ShortLinesOfFile(content);
    WithoutCarriageReturnsPart(short, 0);
    forall i | 0 <= i < |short|
      ensures stamp(ScannedLines(content)[i]) == stamp(lines[i]) && KeepsItsDate(ScannedLines(content)[i], stamp)
    {
      assert short[i] == lines[i] && KeepsItsDate(lines[i], stamp);
    }
  }

  lemma KeptIsSorted(content: Bytes, cutoff: int, now: int, stamp: Stamp)
    requires KeepTheirDates(Split(content), stamp) && Sorted(Split(content), stamp) && NoneLaterThan(Split(content), now, stamp)
    ensures var kept := Kept(content, cutoff, stamp);
            && KeepTheirDates(kept, stamp) && Sorted(kept, stamp)
            && NoneEarlierThan(kept, cutoff, stamp) && NoneLaterThan(kept, now, stamp)
  {
    var scanned, kept := ScannedLines(content), Kept(content, cutoff, stamp);
    ScannedKeepDates(content, stamp);
    SortedLinesSince(scanned, cutoff + 1, stamp);
    forall i | 0 <= i < |kept|
      ensures stamp(kept[i]).Some? && cutoff < stamp(kept[i]).value <= now && KeepsItsDate(kept[i], stamp)
    {
      assert kept[i] in scanned;
      var j :| 0 <= j < |scanned| && scanned[j] == kept[i];
    }
  }

  lemma SortedSuffix(lines: seq<Line>, k: nat, stamp: Stamp)
    requires Sorted(lines, stamp) && k <= |lines|
    ensures Sorted(lines[k..], stamp)
  {
    assert forall i :: 0 <= i < |lines| - k ==> lines[k..][i] == lines[k + i];
  }

  lemma NoneLaterConcat(a: seq<Line>, b: seq<Line>, t: int, u: int, stamp: Stamp)
    requires NoneLaterThan(a, t, stamp) && NoneLaterThan(b, u, stamp) && t <= u
    ensures NoneLaterThan(a + b, u, stamp)
  {}

  /** `first`, then newer lines, then the empty rest of the file. */
  lemma SortedFile(first: seq<Line>, newer: seq<Line>, t: int, now: int, stamp: Stamp)
    requires Sorted(first, stamp) && NoneLaterThan(first, t, stamp) && t <= now && stamp([]).None?
    requires Sorted(newer, stamp) && NoneEarlierThan(newer, t, stamp) && NoneLaterThan(newer, now, stamp)
    ensures Sorted(first + newer + [[]], stamp) && NoneLaterThan(first + newer + [[]], now, stamp)
  {
    SortedConcat(first, newer, t, stamp);
    NoneLaterConcat(first, newer, t, now, stamp);
    SortedConcat(first + newer, [[]], now, stamp);
    NoneLaterConcat(first + newer, [[]], now, now, stamp);
  }

  lemma DatesOfFile(first: seq<Line>, newer: seq<Line>, stamp: Stamp)
    requires KeepTheirDates(first, stamp) && KeepTheirDates(newer, stamp)
    ensures KeepTheirDates(first + newer + [[]], stamp)
  {}

  lemma DeleteKeepsInv(log: Log, message: int -> Bytes, cutoff: int, now: int, stamp: Stamp)
    requires LogInv(log, stamp) && CanHappen(log, Delete(message, cutoff, now), stamp) && stamp([]).None? && cutoff != 0
    ensures LogInv(Next(log, Delete(message, cutoff, now), stamp), stamp)
  {
    var entry, kept := message(cutoff), Kept(log.content, cutoff, stamp);
    var first := Split(entry[..|entry| - 1]);
    LinesAfterDelete(log.content, message, cutoff, now, stamp);
    WrittenEndsWithNewline(kept);
    AnEntryIsSorted(entry[..|entry| - 1], cutoff, stamp);
    KeptIsSorted(log.content, cutoff, now, stamp);
    SortedFile(first, kept, cutoff, now, stamp);
    DatesOfFile(first, kept, stamp);
  }

  lemma ClearKeepsInv(log: Log, message: int -> Bytes, now: int, stamp: Stamp)
    requires LogInv(log, stamp) && CanHappen(log, Delete(message, 0, now), stamp) && stamp([]).None?
    ensures LogInv(Next(log, Delete(message, 0, now), stamp), stamp)
  {
    var entry := message(now);
    AnEntryIsSorted(entry[..|entry| - 1], now, stamp);
    SplitWithLastNewline(entry);
    SortedConcat(Split(entry[..|entry| - 1]), [[]], now, stamp);
  }

  /** Every log stays sorted, whatever is written and deleted; an empty line carries no date. */
  lemma {:induction false} EveryLogIsSorted(log: Log, events: seq<Event>, stamp: Stamp)
    requires LogInv(log, stamp) && IsRun(log, events, stamp) && stamp([]).None?
    ensures LogInv(Run(log, events, stamp), stamp)
    decreases |events|
  {
    if events == [] {
    } else {
      match events[0] {
        case Write(text, now) => WriteKeepsInv(log, text, now, stamp);
        case Delete(message, cutoff, now) =>
          if cutoff == 0 {
            ClearKeepsInv(log, message, now, stamp);
          } else {
            DeleteKeepsInv(log, message, cutoff, now, stamp);
          }
      }
      EveryLogIsSorted(Next(log, events[0], stamp), events[1..], stamp);
    }
  }

  // ---------------------------------------------------------------- what a deletion leaves

  /** Deleting everything leaves exactly the lines of the entry about it. */
  lemma ClearingLeavesTheEntry(log: Log, message: int -> Bytes, now: int, stamp: Stamp)
    ensures Split(Next(log, Delete(message, 0, now), stamp).content) == Split(message(now))
  {
  }

  /** Behind the entry about a deletion stand scanned lines of the old file only, exactly the dated ones that are newer. */
  lemma DeletionLeavesNewerLines(log: Log, message: int -> Bytes, cutoff: int, now: int, stamp: Stamp, line: Line)
    requires cutoff != 0 && EndsWithNewline(message(cutoff)) && line != []
    ensures var entry, lines := Split(message(cutoff)[..|message(cutoff)| - 1]), Split(Next(log, Delete(message, cutoff, now), stamp).content);
            && entry <= lines
            && (line in lines[|entry|..] <==>
                line in ScannedLines(log.content) && stamp(line).Some? && stamp(line).value > cutoff)
  {
    var kept, entry := Kept(log.content, cutoff, stamp), Split(message(cutoff)[..|message(cutoff)| - 1]);
    LinesAfterDelete(log.content, message, cutoff, now, stamp);
    assert (entry + kept + [[]])[|entry|..] == kept + [[]];
  }

  /** Writing adds the lines of the text to those of the file. */
  lemma WritingAppends(log: Log, text: Bytes, now: int, stamp: Stamp)
    requires log.content == [] || EndsWithNewline(log.content)
    ensures LinesBefore(Next(log, Write(text, now), stamp).content) == LinesBefore(log.content) + Split(text)
  {
    AppendedText(log.content, text);
    SplitBehindNewline(log.content + text);
  }

  /** All deletions of the run reach at least up to `cutoff`. */
  predicate DeletesUpTo(events: seq<Event>, cutoff: int) {
    forall k :: 0 <= k < |events| && events[k].Delete? && events[k].cutoff != 0 ==> events[k].cutoff >= cutoff
  }

  lemma NoneEarlierConcat(a: seq<Line>, b: seq<Line>, t: int, stamp: Stamp)
    requires NoneEarlierThan(a, t, stamp) && NoneEarlierThan(b, t, stamp) && stamp([]).None?
    ensures NoneEarlierThan(a + b + [[]], t, stamp)
  {}

  lemma NoneEarlierBelow(lines: seq<Line>, t: int, u: int, stamp: Stamp)
    requires NoneEarlierThan(lines, t, stamp) && u <= t
    ensures NoneEarlierThan(lines, u, stamp)
  {}

  lemma WriteStaysAbove(log: Log, text: Bytes, now: int, cutoff: int, stamp: Stamp)
    requires LogInv(log, stamp) && CanHappen(log, Write(text, now), stamp) && stamp([]).None? && now >= cutoff
    requires NoneEarlierThan(LinesBefore(log.content), cutoff, stamp)
    ensures NoneEarlierThan(Split(Next(log, Write(text, now), stamp).content), cutoff, stamp)
  {
    AppendedText(log.content, text);
    SplitBehindNewline(log.content + text);
    AnEntryIsSorted(text, now, stamp);
    NoneEarlierBelow(Split(text), now, cutoff, stamp);
    NoneEarlierConcat(LinesBefore(log.content), Split(text), cutoff, stamp);
  }

  /** After a deletion no line is older than its cutoff. */
  lemma DeletionReachesTheCutoff(log: Log, message: int -> Bytes, cutoff: int, now: int, stamp: Stamp)
    requires LogInv(log, stamp) && CanHappen(log, Delete(message, cutoff, now), stamp) && stamp([]).None?
    ensures NoneEarlierThan(Split(Next(log, Delete(message, cutoff, now), stamp).content), if cutoff == 0 then now else cutoff, stamp)
  {
    var t := if cutoff == 0 then now else cutoff;
    var entry := message(t);
    AnEntryIsSorted(entry[..|entry| - 1], t, stamp);
    if cutoff == 0 {
      SplitWithLastNewline(entry);
    } else {
      LinesAfterDelete(log.content, message, cutoff, now, stamp);
      KeptIsSorted(log.content, cutoff, log.modTime, stamp);
      NoneEarlierConcat(Split(entry[..|entry| - 1]), Kept(log.content, cutoff, stamp), cutoff, stamp);
    }
  }

  lemma NextStaysAbove(log: Log, e: Event, cutoff: int, stamp: Stamp)
    requires LogInv(log, stamp) && CanHappen(log, e, stamp) && stamp([]).None? && log.modTime >= cutoff
    requires e.Delete? && e.cutoff != 0 ==> e.cutoff >= cutoff
    requires NoneEarlierThan(Split(log.content), cutoff, stamp)
    ensures NoneEarlierThan(Split(Next(log, e, stamp).content), cutoff, stamp) && Next(log, e, stamp).modTime >= cutoff
  {
    match e {
      case Write(text, now) =>
        WriteStaysAbove(log, text, now, cutoff, stamp);
      case Delete(message, c, now) =>
        DeletionReachesTheCutoff(log, message, c, now, stamp);
        NoneEarlierBelow(Split(Next(log, e, stamp).content), if c == 0 then now else c, cutoff, stamp);
    }
  }

  lemma {:induction false} RunStaysAbove(log: Log, events: seq<Event>, cutoff: int, stamp: Stamp)
    requires LogInv(log, stamp) && IsRun(log, events, stamp) && stamp([]).None? && DeletesUpTo(events, cutoff)
    requires log.modTime >= cutoff && NoneEarlierThan(Split(log.content), cutoff, stamp)
    ensures NoneEarlierThan(Split(Run(log, events, stamp).content), cutoff, stamp)
    decreases |events|
  {
    if events == [] {
    } else {
      var e := events[0];
      NextStaysAbove(log, e, cutoff, stamp);
      EveryLogIsSorted(log, [e], stamp);
      assert [e][1..] == [] && Run(log, [e], stamp) == Run(Next(log, e, stamp), [], stamp);
      RunStaysAbove(Next(log, e, stamp), events[1..], cutoff, stamp);
    }
  }

  /** Main theorem: deleted entries do not come back. After a deletion no run has a line older than its cutoff, unless it deletes up to an earlier one. */
  lemma DeletedEntriesStayAway(log: Log, message: int -> Bytes, cutoff: int, now: int, events: seq<Event>, stamp: Stamp)
    requires LogInv(log, stamp) && CanHappen(log, Delete(message, cutoff, now), stamp) && stamp([]).None?
    requires IsRun(Next(log, Delete(message, cutoff, now), stamp), events, stamp)
    requires DeletesUpTo(events, if cutoff == 0 then now else cutoff)
    ensures NoneEarlierThan(Split(Run(Next(log, Delete(message, cutoff, now), stamp), events, stamp).content),
                            if cutoff == 0 then now else cutoff, stamp)
  {
    DeletionReachesTheCutoff(log, message, cutoff, now, stamp);
    if cutoff == 0 {
      ClearKeepsInv(log, message, now, stamp);
    } else {
      DeleteKeepsInv(log, message, cutoff, now, stamp);
    }
    RunStaysAbove(Next(log, Delete(message, cutoff, now), stamp), events, if cutoff == 0 then now else cutoff, stamp);
  }

  lemma FileLinesAreSorted(log: Log, stamp: Stamp)
    requires LogInv(log, stamp)
    ensures Sorted(FileLines(log.content), stamp) && NoneLaterThan(FileLines(log.content), log.modTime, stamp)
  {
    var lines := Split(log.content);
    SortedSuffix(lines, 1, stamp);
    assert forall i :: 0 <= i < |lines| - 1 ==> lines[1..][i] == lines[1 + i];
  }

  /** At any time the recent entries are exactly the lines stamped `t` or later, in file order. */
  lemma RecentEntriesInEveryRun(start: int, events: seq<Event>, t: int, stamp: Stamp)
    requires IsRun(Log([], start), events, stamp) && stamp([]).None?
    ensures var log := Run(Log([], start), events, stamp);
            EntriesSince(log.content, log.modTime, t, stamp) == Written(LinesSince(FileLines(log.content), t, stamp))
  {
    EveryLogIsSorted(Log([], start), events, stamp);
    var log := Run(Log([], start), events, stamp);
    var lines := FileLines(log.content);
    FileLinesAreSorted(log, stamp);
    RecentLinesOfASortedLog(lines, t, stamp);
    if log.modTime < t {
      NoLineSince(lines, t, stamp);
    }
  }

  /** Reading nothing from a file that was last changed before the time loses nothing, sorted or not. */
  lemma UnchangedFilesHaveNoRecentLines(content: Bytes, modTime: int, t: int, stamp: Stamp)
    requires NoneLaterThan(FileLines(content), modTime, stamp)
    ensures EntriesSince(content, modTime, t, stamp) == Written(RecentLines(FileLines(content), t, stamp))
  {
    if modTime < t {
      var lines := FileLines(content);
      var k := AfterLastOlder(lines, t, stamp);
      assert forall i :: 0 <= i < |lines| - k ==> lines[k..][i] == lines[k + i];
      NoLineSince(lines[k..], t, stamp);
    }
  }

  /** In general that holds exactly if nothing is stamped behind the last older line, or the file was changed at the time or later. */
  lemma WhenTheTimeCheckHidesNothing(content: Bytes, modTime: int, t: int, stamp: Stamp)
    ensures EntriesSince(content, modTime, t, stamp) == Written(RecentLines(FileLines(content), t, stamp))
            <==> modTime >= t || RecentLines(FileLines(content), t, stamp) == []
  {
    var recent := RecentLines(FileLines(content), t, stamp);
    if recent != [] {
      assert |Written(recent)| > 0;
    }
  }

  lemma {:induction false} WithoutCarriageReturnsPart(lines: seq<Line>, k: nat)
    requires k <= |lines|
    ensures |WithoutCarriageReturns(lines)| == |lines|
    ensures forall i :: 0 <= i < |lines| ==> WithoutCarriageReturns(lines)[i] == WithoutCarriageReturn(lines[i])
    ensures WithoutCarriageReturns(lines[..k]) == WithoutCarriageReturns(lines)[..k]
  {
    if lines == [] {
    } else {
      WithoutCarriageReturnsPart(lines[1..], if k == 0 then 0 else k - 1);
      if k > 0 {
        assert lines[..k][0] == lines[0] && lines[..k][1..] == lines[1..][..k - 1];
      }
    }
  }

  /**
   Deleting old entries also drops newer ones that stand at or after a line too long for the scanner: all of
   the newer entries survive exactly if there are none there.
   */
  lemma NewerEntriesSurvive(content: Bytes, cutoff: int, stamp: Stamp)
    ensures var lines := TerminatedLines(content);
            Kept(content, cutoff, stamp) == LinesSince(WithoutCarriageReturns(lines), cutoff + 1, stamp)
            <==> forall i :: |ShortLines(lines)| <= i < |lines| ==> !IsSince(WithoutCarriageReturn(lines[i]), cutoff + 1, stamp)
  {
    var lines := TerminatedLines(content);
    var n := |ShortLines(lines)|;
    ShortLinesIsAPrefix(lines);
    assert ShortLines(lines) == lines[..n];
    WithoutCarriageReturnsPart(lines, n);
    LinesSinceOfPart(WithoutCarriageReturns(lines), n, cutoff + 1, stamp);
  }

  /** A newer entry behind a line of 65536 bytes is lost. */
  lemma ALongLineHidesANewerEntry(long: Line, newer: Line, cutoff: int, stamp: Stamp)
    requires |long| == MAX_SCAN_TOKEN_SIZE && NEWLINE !in long && NEWLINE !in newer
    requires IsSince(WithoutCarriageReturn(newer), cutoff + 1, stamp)
    ensures Kept(Written([long, newer]), cutoff, stamp) == []
    ensures WithoutCarriageReturn(newer) in LinesSince(WithoutCarriageReturns(TerminatedLines(Written([long, newer]))), cutoff + 1, stamp)
  {
    var lines := [long, newer];
    SplitOfWritten(lines);
    assert TerminatedLines(Written(lines)) == lines;
    WithoutCarriageReturnsPart(lines, 0);
    assert WithoutCarriageReturns(lines)[1] in WithoutCarriageReturns(lines);
  }
}
