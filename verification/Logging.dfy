/** The log file: reading it backwards, fetching recent entries and deleting old ones. */
module Logging {
  import opened Wrappers
  import opened LogLines

  const CHUNK_SIZE: nat := 4096

  /** The lines after the unread part have been handled, except for the start of one line in `buffer`. */
  ghost predicate Reading<E>(content: Bytes, offset: int, buffer: Bytes, delivered: seq<Line>, handle: Line -> Verdict<E>) {
    && 0 <= offset <= |content|
    && Reverse(FileLines(content)) == delivered + Reverse(FileLines(content[..offset] + buffer))
    && forall line :: line in delivered ==> handle(line).Continue?
  }

  lemma ABlockIsRead<E>(content: Bytes, offset: int, size: nat, buffer: Bytes, delivered: seq<Line>, handle: Line -> Verdict<E>)
    requires Reading(content, offset, buffer, delivered, handle) && size <= offset
    ensures Reading(content, offset - size, content[offset - size..offset] + buffer, delivered, handle)
  {
    assert content[..offset - size] + (content[offset - size..offset] + buffer) == content[..offset] + buffer;
  }

  lemma ALineIsTaken<E>(content: Bytes, offset: int, buffer: Bytes, idx: nat, delivered: seq<Line>, handle: Line -> Verdict<E>)
    requires Reading(content, offset, buffer, delivered, handle)
    requires idx < |buffer| && buffer[idx] == NEWLINE && NEWLINE !in buffer[idx + 1..]
    ensures var line := buffer[idx + 1..];
            if handle(line).Continue? then Reading(content, offset, buffer[..idx], delivered + [line], handle)
            else Delivered(Reverse(FileLines(content)), handle) == delivered + [line]
  {
    var line, before := buffer[idx + 1..], content[..offset] + buffer[..idx];
    assert content[..offset] + buffer == before + [NEWLINE] + line;
    LastLineComesFirst(before, line);
    var rest := Reverse(FileLines(before));
    assert delivered + ([line] + rest) == (delivered + [line]) + rest;
    DeliveredPastContinuing(delivered, [line] + rest, handle);
  }

  lemma TheStartIsReached<E>(content: Bytes, buffer: Bytes, delivered: seq<Line>, handle: Line -> Verdict<E>)
    requires Reading(content, 0, buffer, delivered, handle) && NEWLINE !in buffer
    ensures Delivered(Reverse(FileLines(content)), handle) == delivered + if |buffer| > 0 then [buffer] else []
  {
    assert content[..0] + buffer == buffer;
    SplitOfOneLine(buffer);
    var rest := FileLines(buffer);
    assert rest == if |buffer| > 0 then [buffer] else [];
    assert Reverse(rest) == rest;
    DeliveredPastContinuing(delivered, rest, handle);
    assert Delivered(rest, handle) == rest;
  }

  lemma NothingFailed<E>(delivered: seq<Line>, handle: Line -> Verdict<E>)
    requires forall line :: line in delivered ==> handle(line).Continue?
    ensures Failure(delivered, handle) == None
  {
    if delivered != [] {
      assert delivered[|delivered| - 1] in delivered;
    }
  }

  /**
   Gives the lines of the file to the handler, the last one first, until it stops. The file is read in
   blocks from its end; `buffer` carries the start of a line over to the next block.
   */
  method ReadLinesReverse<E>(content: Bytes, modTime: int, maxTime: int, handle: Line -> Verdict<E>)
    returns (delivered: seq<Line>, error: Option<E>)
    ensures delivered == if modTime < maxTime then [] else Delivered(Reverse(FileLines(content)), handle)
    ensures error == Failure(delivered, handle)
  {
    delivered, error := [], None;
    if modTime < maxTime {
      return;
    }
    var buffer: Bytes := [];
    var offset := |content|;
    assert content[..offset] + buffer == content;
    while offset > 0
      invariant Reading(content, offset, buffer, delivered, handle) && NEWLINE !in buffer && error == None
    {
      var readSize := if offset < CHUNK_SIZE then offset else CHUNK_SIZE;
      ABlockIsRead(content, offset, readSize, buffer, delivered, handle);
      offset := offset - readSize;
      var chunk := content[offset..offset + readSize];
      buffer := chunk + buffer;
      while true
        invariant Reading(content, offset, buffer, delivered, handle)
        decreases |buffer|
      {
        var idx := LastNewline(buffer);
        if idx < 0 {
          assert buffer[idx + 1..] == buffer;
          break;
        }
        ALineIsTaken(content, offset, buffer, idx, delivered, handle);
        var line := buffer[idx + 1..];
        buffer := buffer[..idx];
        delivered := delivered + [line];
        var verdict := handle(line);
        if verdict.Fail? {
          error := Some(verdict.error);
          return;
        }
        if verdict.Stop? {
          return;
        }
      }
    }
    TheStartIsReached(content, buffer, delivered, handle);
    NothingFailed(delivered, handle);
    if |buffer| > 0 {
      delivered := delivered + [buffer];
      var verdict := handle(buffer);
      if verdict.Fail? {
        error := Some(verdict.error);
      }
    }
  }

  method LastNewline(buffer: Bytes) returns (idx: int)
    ensures -1 <= idx < |buffer|
    ensures idx >= 0 ==> buffer[idx] == NEWLINE
    ensures NEWLINE !in buffer[idx + 1..]
  {
    idx := |buffer| - 1;
    while idx >= 0 && buffer[idx] != NEWLINE
      invariant -1 <= idx < |buffer| && NEWLINE !in buffer[idx + 1..]
    {
      idx := idx - 1;
    }
  }

  /** A handler that never stops sees the whole file in reverse. */
  lemma EveryLineIsDelivered<E>(content: Bytes, handle: Line -> Verdict<E>)
    requires forall line :: handle(line).Continue?
    ensures Delivered(Reverse(FileLines(content)), handle) == Reverse(FileLines(content))
  {
    var lines := Reverse(FileLines(content));
    assert lines + [] == lines;
    DeliveredPastContinuing(lines, [], handle);
  }

  // ---------------------------------------------------------------- recent entries

  /** Stops the backward search at the first line older than `t`. */
  function SinceHandler(t: int, stamp: Stamp): Line -> Verdict<()> {
    line => if IsOlder(line, t, stamp) then Stop else Continue
  }

  function EntriesSince(content: Bytes, modTime: int, t: int, stamp: Stamp): Bytes {
    if modTime < t then [] else Written(RecentLines(FileLines(content), t, stamp))
  }

  lemma RecentLinesContinue(lines: seq<Line>, t: int, stamp: Stamp, line: Line)
    requires forall i :: 0 <= i < |lines| ==> !IsOlder(lines[i], t, stamp)
    requires line in Reverse(lines)
    ensures SinceHandler(t, stamp)(line) == Continue
  {
    var i :| 0 <= i < |lines| && Reverse(lines)[i] == line;
    assert lines[|lines| - 1 - i] == line;
  }

  lemma {:induction false} ReverseConcat(a: seq<Line>, b: seq<Line>)
    ensures Reverse(a + b) == Reverse(b) + Reverse(a)
  {
    assert forall i :: 0 <= i < |a + b| ==> Reverse(a + b)[i] == (Reverse(b) + Reverse(a))[i];
  }

  /** The lines behind the last older one, and that one, on which the handler stops. */
  lemma DeliveredSince(lines: seq<Line>, t: int, stamp: Stamp)
    ensures var k := AfterLastOlder(lines, t, stamp);
            Delivered(Reverse(lines), SinceHandler(t, stamp)) == Reverse(lines[k..]) + if k > 0 then [lines[k - 1]] else []
  {
    var k := AfterLastOlder(lines, t, stamp);
    var recent, older, handle := lines[k..], lines[..k], SinceHandler(t, stamp);
    assert lines == older + recent;
    ReverseConcat(older, recent);
    forall line | line in Reverse(recent)
      ensures handle(line).Continue?
    {
      RecentLinesContinue(recent, t, stamp, line);
    }
    DeliveredPastContinuing(Reverse(recent), Reverse(older), handle);
    if k > 0 {
      assert Reverse(older)[0] == lines[k - 1];
    }
  }

  lemma {:induction false} ReverseOfSince(lines: seq<Line>, t: int, stamp: Stamp)
    ensures Reverse(LinesSince(Reverse(lines), t, stamp)) == LinesSince(lines, t, stamp)
  {
    if lines == [] {
    } else {
      var first, rest := lines[0], lines[1..];
      var since := LinesSince(Reverse(rest), t, stamp);
      ReverseOfSince(rest, t, stamp);
      LinesSinceConcat(Reverse(rest), [first], t, stamp);
      if IsSince(first, t, stamp) {
        assert LinesSince([first], t, stamp) == [first];
        ReverseAppend(since, first);
      } else {
        assert LinesSince([first], t, stamp) == [];
        assert since + [] == since;
      }
    }
  }

  method WriteBackwards(lines: seq<Line>) returns (output: Bytes)
    ensures output == Written(Reverse(lines))
  {
    output := [];
    var i := |lines| - 1;
    while i >= 0
      invariant -1 <= i < |lines|
      invariant output == Written(Reverse(lines[i + 1..]))
    {
      assert Reverse(lines[i..]) == Reverse(lines[i + 1..]) + [lines[i]];
      WrittenConcat(Reverse(lines[i + 1..]), [lines[i]]);
      assert Written([lines[i]]) == lines[i] + [NEWLINE];
      output := output + lines[i] + [NEWLINE];
      i := i - 1;
    }
    assert lines[0..] == lines;
  }

  class LogFile {
    var content: Bytes
    var modTime: int

    constructor (now: int)
      ensures content == [] && modTime == now
    {
      content, modTime := [], now;
    }

    method WriteToFile(text: Bytes, now: int)
      modifies this
      ensures content == old(content) + text + [NEWLINE] && modTime == now
    {
      content := content + text + [NEWLINE];
      modTime := now;
    }

    method DeleteLogs(message: int -> Bytes, cutoff: int, now: int, stamp: Stamp)
      modifies this
      ensures content == AfterDeleteLogs(old(content), message, cutoff, now, stamp) && modTime == now
    {
      if cutoff == 0 {
        content, modTime := message(now), now;
        return;
      }
      var logFile, newFile := content, message(cutoff);
      assert logFile[0..] == logFile;
      var token, pos := Scan(logFile, 0);
      ghost var pending, result := ScannedLines(logFile), AfterDeleteLogs(logFile, message, cutoff, now, stamp);
      while token.Some?
        invariant pos <= |logFile|
        invariant pending == if token.Some? then [token.value] + ScannedLines(logFile[pos..]) else []
        invariant Deleting(result, newFile, pending, cutoff, stamp)
        decreases |logFile| - pos, token.Some?
      {
        var line := token.value;
        pending := ScannedLines(logFile[pos..]);
        ALineIsKeptOrNot(result, newFile, line, pending, cutoff, stamp);
        if stamp(line).Some? && stamp(line).value > cutoff {
          newFile := newFile + (line + [NEWLINE]);
        }
        token, pos := Scan(logFile, pos);
      }
      content, modTime := newFile, now;
    }

    method GetSince(t: int, stamp: Stamp) returns (output: Bytes)
      ensures output == EntriesSince(content, modTime, t, stamp)
    {
      var delivered, _ := ReadLinesReverse(content, modTime, t, SinceHandler(t, stamp));
      var lines: seq<Line> := [];
      for i := 0 to |delivered|
        invariant lines == LinesSince(delivered[..i], t, stamp)
      {
        assert delivered[..i + 1] == delivered[..i] + [delivered[i]];
        LinesSinceConcat(delivered[..i], [delivered[i]], t, stamp);
        if stamp(delivered[i]).Some? && !(stamp(delivered[i]).value < t) {
          lines := lines + [delivered[i]];
        }
      }
      assert delivered[..|delivered|] == delivered;
      output := WriteBackwards(lines);
      if modTime >= t {
        CollectedSince(FileLines(content), t, stamp);
      }
    }
  }

  // ---------------------------------------------------------------- deleting old entries

  /** Newer than the cutoff. */
  function Kept(content: Bytes, cutoff: int, stamp: Stamp): seq<Line> {
    LinesSince(ScannedLines(content), cutoff + 1, stamp)
  }

  /** The file after the old entries are deleted; `message` is the entry about the deletion, by its time. */
  function AfterDeleteLogs(content: Bytes, message: int -> Bytes, cutoff: int, now: int, stamp: Stamp): Bytes {
    if cutoff == 0 then message(now) else message(cutoff) + Written(Kept(content, cutoff, stamp))
  }

  /** The scanner at `pos` finds the line `token` and goes on at `next`, or finds no more. */
  ghost predicate IsScanStep(content: Bytes, pos: nat, token: Option<Line>, next: nat)
    requires pos <= next <= |content|
  {
    ScannedLines(content[pos..]) == if token.None? then [] else [token.value] + ScannedLines(content[next..])
  }

  /** The line from `pos` to `i`, unless it is too long or there is none. */
  function TokenAt(content: Bytes, pos: nat, i: nat): Option<Line>
    requires pos <= i <= |content|
  {
    if i - pos >= MAX_SCAN_TOKEN_SIZE || pos == |content| then None else Some(WithoutCarriageReturn(content[pos..i]))
  }

  function NextAt(content: Bytes, pos: nat, i: nat): (next: nat)
    requires pos <= i <= |content|
    ensures pos <= next <= |content|
  {
    if TokenAt(content, pos, i).None? then pos else if i < |content| then i + 1 else i
  }

  /** One step of the line scanner. */
  method Scan(content: Bytes, pos: nat) returns (token: Option<Line>, next: nat)
    requires pos <= |content|
    ensures pos <= next <= |content| && (token.Some? ==> pos < next)
    ensures IsScanStep(content, pos, token, next)
  {
    var i := LineEnd(content, pos);
    ALineEndIsScanned(content, pos, i);
    token, next := TokenAt(content, pos, i), NextAt(content, pos, i);
  }

  predicate IsLineEnd(content: Bytes, pos: nat, i: nat) {
    && pos <= i <= |content| && i - pos <= MAX_SCAN_TOKEN_SIZE
    && (i < |content| && i - pos < MAX_SCAN_TOKEN_SIZE ==> content[i] == NEWLINE)
    && forall k :: pos <= k < i ==> content[k] != NEWLINE
  }

  lemma ALineEndIsScanned(content: Bytes, pos: nat, i: nat)
    requires IsLineEnd(content, pos, i)
    ensures IsScanStep(content, pos, TokenAt(content, pos, i), NextAt(content, pos, i))
    ensures TokenAt(content, pos, i).Some? ==> pos < NextAt(content, pos, i)
  {
    if i - pos >= MAX_SCAN_TOKEN_SIZE {
      ALongLineIsScanned(content, pos, i);
    } else if i < |content| {
      ALineIsScanned(content, pos, i);
    } else {
      TheEndIsScanned(content, pos);
    }
  }

  /** The end of the line, of the file or of the scanner's buffer, whichever comes first. */
  method LineEnd(content: Bytes, pos: nat) returns (i: nat)
    requires pos <= |content|
    ensures IsLineEnd(content, pos, i)
  {
    i := pos;
    while i < |content| && content[i] != NEWLINE && i - pos < MAX_SCAN_TOKEN_SIZE
      invariant pos <= i <= |content| && i - pos <= MAX_SCAN_TOKEN_SIZE
      invariant forall k :: pos <= k < i ==> content[k] != NEWLINE
    {
      i := i + 1;
    }
  }

  lemma ALongLineIsScanned(content: Bytes, pos: nat, i: nat)
    requires pos <= i <= |content| && i - pos >= MAX_SCAN_TOKEN_SIZE && forall k :: pos <= k < i ==> content[k] != NEWLINE
    ensures IsScanStep(content, pos, None, pos)
  {
    var s := content[pos..];
    assert forall k :: 0 <= k < i - pos ==> s[k] == content[pos + k];
    ALongLineEndsTheScan(s, i - pos);
  }

  lemma ALineIsScanned(content: Bytes, pos: nat, i: nat)
    requires pos <= i < |content| && content[i] == NEWLINE && i - pos < MAX_SCAN_TOKEN_SIZE
    requires forall k :: pos <= k < i ==> content[k] != NEWLINE
    ensures IsScanStep(content, pos, Some(WithoutCarriageReturn(content[pos..i])), i + 1)
  {
    LineAt(content, pos, i);
    ScannedFirstLine(content[pos..i], content[i + 1..]);
  }

  lemma TheEndIsScanned(content: Bytes, pos: nat)
    requires pos <= |content| && |content| - pos < MAX_SCAN_TOKEN_SIZE
    requires forall k :: pos <= k < |content| ==> content[k] != NEWLINE
    ensures pos == |content| ==> IsScanStep(content, pos, None, pos)
    ensures pos < |content| ==> IsScanStep(content, pos, Some(WithoutCarriageReturn(content[pos..|content|])), |content|)
  {
    assert content[pos..] == content[pos..|content|] && content[|content|..] == [];
    ScannedLastLine(content[pos..|content|]);
  }

  lemma LineAt(content: Bytes, pos: nat, i: nat)
    requires pos <= i < |content| && content[i] == NEWLINE
    ensures content[pos..] == content[pos..i] + [NEWLINE] + content[i + 1..]
  {}

  lemma ScannedFirstLine(line: Line, rest: Bytes)
    requires NEWLINE !in line && |line| < MAX_SCAN_TOKEN_SIZE
    ensures ScannedLines(line + [NEWLINE] + rest) == [WithoutCarriageReturn(line)] + ScannedLines(rest)
  {
    TerminatedFirstLine(line, rest);
    var lines := TerminatedLines(rest);
    assert ([line] + lines)[1..] == lines;
    assert ShortLines([line] + lines) == [line] + ShortLines(lines);
    assert ([line] + ShortLines(lines))[1..] == ShortLines(lines);
  }

  /** A carriage return in front of the newline is not part of the line; any other end of a line is. */
  lemma ACarriageReturnIsDropped(line: Line, rest: Bytes)
    requires NEWLINE !in line && |line| + 1 < MAX_SCAN_TOKEN_SIZE
    ensures ScannedLines(line + [CARRIAGE_RETURN] + [NEWLINE] + rest) == [line] + ScannedLines(rest)
    ensures line == [] || line[|line| - 1] != CARRIAGE_RETURN ==> ScannedLines(line + [NEWLINE] + rest) == [line] + ScannedLines(rest)
  {
    ScannedFirstLine(line + [CARRIAGE_RETURN], rest);
    ScannedFirstLine(line, rest);
    assert (line + [CARRIAGE_RETURN])[..|line|] == line;
  }

  lemma ScannedLastLine(line: Line)
    requires NEWLINE !in line && |line| < MAX_SCAN_TOKEN_SIZE
    ensures ScannedLines(line) == if line == [] then [] else [WithoutCarriageReturn(line)]
    ensures ScannedLines([]) == []
  {
    SplitOfOneLine(line);
    assert ShortLines([line]) == [line];
    assert WithoutCarriageReturns([line]) == [WithoutCarriageReturn(line)];
  }

  /** The new file is written except for the lines not scanned yet. */
  ghost predicate Deleting(result: Bytes, newFile: Bytes, pending: seq<Line>, cutoff: int, stamp: Stamp) {
    result == newFile + Written(LinesSince(pending, cutoff + 1, stamp))
  }

  lemma ALineIsKeptOrNot(result: Bytes, newFile: Bytes, line: Line, rest: seq<Line>, cutoff: int, stamp: Stamp)
    requires Deleting(result, newFile, [line] + rest, cutoff, stamp)
    ensures Deleting(result, if IsSince(line, cutoff + 1, stamp) then newFile + (line + [NEWLINE]) else newFile, rest, cutoff, stamp)
  {
    assert ([line] + rest)[1..] == rest;
    var since := LinesSince(rest, cutoff + 1, stamp);
    if IsSince(line, cutoff + 1, stamp) {
      assert ([line] + since)[1..] == since;
      assert newFile + (line + [NEWLINE] + Written(since)) == newFile + (line + [NEWLINE]) + Written(since);
    }
  }

  lemma ALongLineEndsTheScan(s: Bytes, n: nat)
    requires MAX_SCAN_TOKEN_SIZE <= n <= |s| && forall k :: 0 <= k < n ==> s[k] != NEWLINE
    ensures ScannedLines(s) == []
  {
    LongFirstLine(s, n);
    assert TerminatedLines(s)[0] == Split(s)[0];
  }

  lemma {:induction false} LongFirstLine(s: Bytes, n: nat)
    requires n <= |s| && NEWLINE !in s[..n]
    ensures |Split(s)[0]| >= n
  {
    if n == 0 {
    } else {
      assert s[..n][0] == s[0] && s[1..][..n - 1] == s[..n][1..];
      LongFirstLine(s[1..], n - 1);
    }
  }

  lemma StoppedLineIsNotCollected(recent: seq<Line>, stop: seq<Line>, t: int, stamp: Stamp)
    requires forall i :: 0 <= i < |stop| ==> IsOlder(stop[i], t, stamp)
    ensures LinesSince(recent + stop, t, stamp) == LinesSince(recent, t, stamp)
  {
    LinesSinceConcat(recent, stop, t, stamp);
    NoLineSince(stop, t, stamp);
    assert LinesSince(recent, t, stamp) + [] == LinesSince(recent, t, stamp);
  }

  lemma CollectedSince(lines: seq<Line>, t: int, stamp: Stamp)
    ensures Reverse(LinesSince(Delivered(Reverse(lines), SinceHandler(t, stamp)), t, stamp)) == RecentLines(lines, t, stamp)
  {
    var k := AfterLastOlder(lines, t, stamp);
    var stop := if k > 0 then [lines[k - 1]] else [];
    DeliveredSince(lines, t, stamp);
    StoppedLineIsNotCollected(Reverse(lines[k..]), stop, t, stamp);
    ReverseOfSince(lines[k..], t, stamp);
  }
}
