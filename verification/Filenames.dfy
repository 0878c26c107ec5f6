/** File names as the server stores them, and their copy in the browser. Strings are sequences of Unicode characters. */
module Filenames {
  const MAX_BYTES: nat := 400
  const REPLACEMENT := '\U{FFFD}'
  const BYTE_ORDER_MARK := '\U{FEFF}'
  const ELLIPSIS := "..."

  // ---------------------------------------------------------------- spaces

  predicate IsGoSpace(c: char) {
    var n := c as int;
    0x09 <= n <= 0x0D || n == 0x20 || n == 0x85 || n == 0xA0 || n == 0x1680 || 0x2000 <= n <= 0x200A
    || n == 0x2028 || n == 0x2029 || n == 0x202F || n == 0x205F || n == 0x3000
  }

  function TrimLeft(s: string): string {
    if s != "" && IsGoSpace(s[0]) then TrimLeft(s[1..]) else s
  }

  function TrimRight(s: string): string {
    if s != "" && IsGoSpace(s[|s| - 1]) then TrimRight(s[..|s| - 1]) else s
  }

  function TrimGoSpace(s: string): string {
    TrimRight(TrimLeft(s))
  }

  predicate IsTrimmed(s: string) {
    s != "" ==> !IsGoSpace(s[0]) && !IsGoSpace(s[|s| - 1])
  }

  lemma {:induction false} TrimLeftIsSuffix(s: string) returns (k: nat)
    ensures k <= |s| && TrimLeft(s) == s[k..]
    ensures forall i :: 0 <= i < k ==> IsGoSpace(s[i])
    ensures k < |s| ==> !IsGoSpace(s[k])
  {
    if s == "" || !IsGoSpace(s[0]) {
      k := 0;
    } else {
      k := TrimLeftIsSuffix(s[1..]);
      k := k + 1;
    }
  }

  lemma {:induction false} TrimRightIsPrefix(s: string) returns (k: nat)
    ensures k <= |s| && TrimRight(s) == s[..k]
    ensures forall i :: k <= i < |s| ==> IsGoSpace(s[i])
    ensures k > 0 ==> !IsGoSpace(s[k - 1])
  {
    if s == "" || !IsGoSpace(s[|s| - 1]) {
      k := |s|;
    } else {
      k := TrimRightIsPrefix(s[..|s| - 1]);
    }
  }

  lemma TrimmedOrUnchanged(s: string)
    ensures IsTrimmed(TrimGoSpace(s)) && |TrimGoSpace(s)| <= |s|
    ensures TrimGoSpace(s) == s <==> IsTrimmed(s)
    ensures forall c :: c in TrimGoSpace(s) ==> c in s
  {
    var k := TrimLeftIsSuffix(s);
    var left := TrimLeft(s);
    var j := TrimRightIsPrefix(left);
    assert TrimGoSpace(s) == left[..j];
    assert forall i :: 0 <= i < j ==> left[..j][i] == s[k + i];
    if TrimGoSpace(s) == s {
      assert k == 0;
    }
  }

  method ZipTrimGoSpace(value: string) returns (r: string)
    ensures r == TrimGoSpace(value)
  {
    var start, end := 0, |value|;
    assert value[0..] == value;
    while start < end && IsGoSpace(value[start])
      invariant start <= end == |value| && TrimLeft(value) == TrimLeft(value[start..])
    {
      assert value[start..][1..] == value[start + 1..];
      start := start + 1;
    }
    ghost var left := value[start..];
    assert left[..end - start] == left;
    while end > start && IsGoSpace(value[end - 1])
      invariant start <= end <= |value| && TrimRight(left) == TrimRight(left[..end - start])
    {
      assert left[..end - start][..end - start - 1] == left[..end - start - 1];
      end := end - 1;
    }
    r := value[start..end];
    assert r == left[..end - start];
  }

  // ---------------------------------------------------------------- bytes

  function Utf8Size(c: char): (n: nat)
    ensures 1 <= n <= 4
  {
    var p := c as int;
    if p < 0x80 then 1 else if p < 0x800 then 2 else if p < 0x10000 then 3 else 4
  }

  /** The characters that fit into one to four bytes of UTF-8 have 7, 11, 16 and 21 bits. */
  function Capacity(bytes: nat): nat {
    if bytes == 0 then 0 else if bytes == 1 then 0x80 else if bytes == 2 then 0x800 else if bytes == 3 then 0x1_0000 else 0x20_0000
  }

  lemma Utf8SizeIsTheLeast(c: char)
    ensures Capacity(Utf8Size(c) - 1) <= c as int < Capacity(Utf8Size(c))
  {}

  function Utf8Length(s: string): nat {
    if s == "" then 0 else Utf8Size(s[0]) + Utf8Length(s[1..])
  }

  lemma {:induction false} Utf8LengthConcat(a: string, b: string)
    ensures Utf8Length(a + b) == Utf8Length(a) + Utf8Length(b)
  {
    if a == "" {
      assert a + b == b;
    } else {
      Utf8LengthConcat(a[1..], b);
      assert (a + b)[1..] == a[1..] + b;
    }
  }

  /** The longest prefix that fits, without splitting a character. */
  function LimitUtf8Bytes(s: string, maxBytes: nat): string {
    if s == "" || Utf8Size(s[0]) > maxBytes then ""
    else [s[0]] + LimitUtf8Bytes(s[1..], maxBytes - Utf8Size(s[0]))
  }

  lemma {:induction false} LimitIsLongestPrefix(s: string, maxBytes: nat)
    ensures LimitUtf8Bytes(s, maxBytes) <= s && Utf8Length(LimitUtf8Bytes(s, maxBytes)) <= maxBytes
    ensures var k := |LimitUtf8Bytes(s, maxBytes)|;
            k < |s| ==> Utf8Length(LimitUtf8Bytes(s, maxBytes)) + Utf8Size(s[k]) > maxBytes
  {
    if s == "" || Utf8Size(s[0]) > maxBytes {
    } else {
      LimitIsLongestPrefix(s[1..], maxBytes - Utf8Size(s[0]));
      var rest := LimitUtf8Bytes(s[1..], maxBytes - Utf8Size(s[0]));
      assert ([s[0]] + rest)[1..] == rest;
      assert s == [s[0]] + s[1..];
    }
  }

  method ZipLimitUtf8Bytes(value: string, maxBytes: nat) returns (result: string)
    ensures result == LimitUtf8Bytes(value, maxBytes)
  {
    var used := 0;
    result := "";
    for i := 0 to |value|
      invariant used <= maxBytes
      invariant LimitUtf8Bytes(value, maxBytes) == result + LimitUtf8Bytes(value[i..], maxBytes - used)
    {
      var size := Utf8Size(value[i]);
      if used + size > maxBytes {
        break;
      }
      assert value[i..][1..] == value[i + 1..];
      result := result + [value[i]];
      used := used + size;
    }
  }

  // ---------------------------------------------------------------- characters

  predicate IsControl(c: char) {
    c as int <= 0x1F || c as int == 0x7F
  }

  predicate IsForbidden(c: char) {
    c == '/' || c == '\\' || c == ':' || c == '*' || c == '?' || c == '"' || c == '<' || c == '>' || c == '|'
  }

  predicate IsClean(s: string) {
    forall i :: 0 <= i < |s| ==> !IsControl(s[i]) && !IsForbidden(s[i])
  }

  /** Without control characters, and with an underscore for every forbidden one. */
  function Cleaned(s: string): string {
    if s == "" then ""
    else if IsControl(s[0]) then Cleaned(s[1..])
    else [if IsForbidden(s[0]) then '_' else s[0]] + Cleaned(s[1..])
  }

  lemma {:induction false} CleanedIsClean(s: string)
    ensures IsClean(Cleaned(s)) && |Cleaned(s)| <= |s|
    ensures Cleaned(s) == s <==> IsClean(s)
  {
    if s == "" {
    } else {
      CleanedIsClean(s[1..]);
      assert s == [s[0]] + s[1..];
      if IsClean(s) {
        assert IsClean(s[1..]);
      }
    }
  }

  lemma {:induction false} CleanedConcat(a: string, b: string)
    ensures Cleaned(a + b) == Cleaned(a) + Cleaned(b)
  {
    if a == "" {
      assert a + b == b;
    } else {
      var first, tail := a[0], a[1..];
      CleanedConcat(tail, b);
      CleanedFirst(first, tail);
      CleanedFirst(first, tail + b);
      FirstCharacter(a, b);
      Regrouped(CleanedCharacter(first), Cleaned(tail), Cleaned(b));
    }
  }

  lemma FirstCharacter(a: string, b: string)
    requires a != ""
    ensures a == [a[0]] + a[1..] && a + b == [a[0]] + (a[1..] + b)
  {}

  lemma Regrouped(a: string, b: string, c: string)
    ensures a + (b + c) == (a + b) + c
  {}

  function CleanedCharacter(c: char): string {
    if IsControl(c) then "" else [if IsForbidden(c) then '_' else c]
  }

  lemma CleanedFirst(c: char, s: string)
    ensures Cleaned([c] + s) == CleanedCharacter(c) + Cleaned(s)
  {
    assert ([c] + s)[1..] == s;
  }

  function TrimDots(s: string): string {
    if s != "" && s[0] == '.' then TrimDots(s[1..]) else s
  }

  lemma {:induction false} TrimDotsIsSuffix(s: string) returns (k: nat)
    ensures k <= |s| && TrimDots(s) == s[k..]
    ensures forall i :: 0 <= i < k ==> s[i] == '.'
    ensures k < |s| ==> s[k] != '.'
  {
    if s == "" || s[0] != '.' {
      k := 0;
    } else {
      k := TrimDotsIsSuffix(s[1..]);
      k := k + 1;
    }
  }

  /** The characters that no file name may have on some system. */
  const FORBIDDEN_CHARACTERS := "/\\:*?\"<>|"

  /** Control characters go, these nine become underscores, and every other character stays as it is. */
  lemma EachCharacterIsCleaned(c: char)
    ensures Cleaned([c]) == if c as int < 32 || c as int == 127 then "" else if c in FORBIDDEN_CHARACTERS then "_" else [c]
  {
    assert [c][1..] == "" && Cleaned("") == "";
  }

  /** White space, as Go knows it. */
  const GO_SPACES := "\t\n\U{0B}\U{0C}\r \U{85}\U{A0}\U{1680}\U{2000}\U{2001}\U{2002}\U{2003}\U{2004}\U{2005}"
                     + "\U{2006}\U{2007}\U{2008}\U{2009}\U{200A}\U{2028}\U{2029}\U{202F}\U{205F}\U{3000}"

  lemma SpacesAreTrimmed(c: char)
    ensures TrimGoSpace([c]) == if c in GO_SPACES then "" else [c]
  {
    SpacesAreListed(c);
    assert [c][1..] == "" && TrimLeft("") == "" && TrimRight("") == "";
  }

  lemma SpacesAreListed(c: char)
    ensures IsGoSpace(c) <==> c in GO_SPACES
  {}

  // ---------------------------------------------------------------- sanitising

  /** How many bytes of a character are left when the name is cut at the limit. */
  function CutBytes(name: string): int {
    if Utf8Length(name) <= MAX_BYTES then 0 else MAX_BYTES - Utf8Length(LimitUtf8Bytes(name, MAX_BYTES))
  }

  function Replacements(n: int): string {
    if n <= 0 then "" else [REPLACEMENT] + Replacements(n - 1)
  }

  predicate IsTooLong(name: string) {
    Utf8Length(name) > MAX_BYTES
  }

  /** On the server every byte of a cut character becomes a replacement character. */
  function Truncated(name: string): string {
    if !IsTooLong(name) then name
    else LimitUtf8Bytes(name, MAX_BYTES) + Replacements(CutBytes(name)) + ELLIPSIS
  }

  /** The decoder of the browser drops a byte order mark at the start. */
  function WithoutByteOrderMark(s: string): string {
    if s != "" && s[0] == BYTE_ORDER_MARK then s[1..] else s
  }

  /** The first 400 bytes, as the browser decodes them: a cut character becomes one replacement character. */
  function FirstBytes(name: string): string {
    WithoutByteOrderMark(LimitUtf8Bytes(name, MAX_BYTES)) + Replacements(if CutBytes(name) > 0 then 1 else 0)
  }

  function ZipTruncated(name: string): string {
    if !IsTooLong(name) then name else FirstBytes(name) + ELLIPSIS
  }

  function Finished(name: string): string {
    TrimGoSpace(TrimDots(Cleaned(name)))
  }

  function SanitiseFilename(name: string): string {
    Finished(Truncated(name))
  }

  function ZipSanitiseFilename(name: string): string {
    Finished(ZipTruncated(name))
  }

  lemma FinishedIsClean(name: string)
    ensures IsClean(Finished(name)) && IsTrimmed(Finished(name))
  {
    CleanedIsClean(name);
    var cleaned := Cleaned(name);
    var k := TrimDotsIsSuffix(cleaned);
    TrimmedOrUnchanged(TrimDots(cleaned));
    var r := Finished(name);
    forall i | 0 <= i < |r|
      ensures !IsControl(r[i]) && !IsForbidden(r[i])
    {
      assert r[i] in r;
      assert r[i] in cleaned[k..];
      assert r[i] in cleaned;
    }
  }

  /** A sanitised name has no control or forbidden characters and no spaces around it. */
  lemma SanitisedIsClean(name: string)
    ensures IsClean(SanitiseFilename(name)) && IsTrimmed(SanitiseFilename(name))
    ensures IsClean(ZipSanitiseFilename(name)) && IsTrimmed(ZipSanitiseFilename(name))
  {
    FinishedIsClean(Truncated(name));
    FinishedIsClean(ZipTruncated(name));
  }

  /** A clean, trimmed name within the limit is left alone exactly if it does not begin with a dot. */
  lemma SanitiseLeavesAlone(name: string)
    requires IsClean(name) && IsTrimmed(name) && Utf8Length(name) <= MAX_BYTES
    ensures SanitiseFilename(name) == name <==> name == "" || name[0] != '.'
    ensures ZipSanitiseFilename(name) == SanitiseFilename(name)
  {
    assert SanitiseFilename(name) == Finished(name);
    CleanedIsClean(name);
    var k := TrimDotsIsSuffix(name);
    TrimmedOrUnchanged(TrimDots(name));
    if name == "" || name[0] != '.' {
      assert k == 0;
    }
  }

  method ZipSanitise(name: string) returns (r: string)
    ensures r == ZipSanitiseFilename(name)
  {
    var current := name;
    if Utf8Length(name) > MAX_BYTES {
      var prefix := ZipLimitUtf8Bytes(name, MAX_BYTES);
      var decoded := WithoutByteOrderMark(prefix) + Replacements(if Utf8Length(prefix) < MAX_BYTES then 1 else 0);
      current := decoded + ELLIPSIS;
    }
    var cleaned := CleanCharacters(current);
    r := ZipTrimGoSpace(TrimDots(cleaned));
  }

  lemma CleaningStep(s: string, i: nat, cleaned: string)
    requires i < |s| && Cleaned(s) == cleaned + Cleaned(s[i..])
    ensures Cleaned(s) == (cleaned + CleanedCharacter(s[i])) + Cleaned(s[i + 1..])
  {
    var first, tail := s[i], s[i + 1..];
    CharacterAt(s, i);
    CleanedFirst(first, tail);
    Regrouped(cleaned, CleanedCharacter(first), Cleaned(tail));
  }

  lemma CharacterAt(s: string, i: nat)
    requires i < |s|
    ensures s[i..] == [s[i]] + s[i + 1..]
  {}

  method CleanCharacters(current: string) returns (cleaned: string)
    ensures cleaned == Cleaned(current)
  {
    cleaned := "";
    for i := 0 to |current|
      invariant Cleaned(current) == cleaned + Cleaned(current[i..])
    {
      CleaningStep(current, i, cleaned);
      if !IsControl(current[i]) {
        cleaned := cleaned + [if IsForbidden(current[i]) then '_' else current[i]];
      }
    }
  }

  // ---------------------------------------------------------------- the browser's copy against the server

  lemma {:induction false} TrimDotsBefore(a: string, b: string)
    requires b != "" && b[0] != '.'
    ensures TrimDots(a + b) == TrimDots(a) + b
  {
    if a == "" {
      assert a + b == b;
    } else if a[0] == '.' {
      TrimDotsBefore(a[1..], b);
      assert (a + b)[1..] == a[1..] + b;
    }
  }

  lemma {:induction false} TrimLeftBefore(a: string, b: string)
    requires b != "" && !IsGoSpace(b[0])
    ensures TrimLeft(a + b) == TrimLeft(a) + b
  {
    if a == "" {
      assert a + b == b;
    } else if IsGoSpace(a[0]) {
      TrimLeftBefore(a[1..], b);
      assert (a + b)[1..] == a[1..] + b;
    }
  }

  lemma {:induction false} ReplacementsFacts(n: nat)
    ensures |Replacements(n)| == n && forall i :: 0 <= i < n ==> Replacements(n)[i] == REPLACEMENT
  {
    if n == 0 {
    } else {
      ReplacementsFacts(n - 1);
    }
  }

  lemma {:induction false} FirstBytesEnd(name: string)
    requires IsTooLong(name)
    ensures var prefix := LimitUtf8Bytes(name, MAX_BYTES);
            prefix != "" && prefix < name && prefix[0] == name[0] && 0 <= CutBytes(name) <= 3
  {
    LimitIsLongestPrefix(name, MAX_BYTES);
    var prefix := LimitUtf8Bytes(name, MAX_BYTES);
    assert |prefix| == |name| ==> prefix == name;
  }

  /** A name that is cut keeps its end: only its beginning is still trimmed. */
  lemma FinishedAfterCut(prefix: string, tail: string)
    requires tail != "" && IsClean(tail) && tail[0] == REPLACEMENT && tail[|tail| - 1] == '.'
    ensures Finished(prefix + tail) == TrimLeft(TrimDots(Cleaned(prefix))) + tail
  {
    CleanedIsClean(tail);
    CleanedConcat(prefix, tail);
    TrimDotsBefore(Cleaned(prefix), tail);
    TrimLeftBefore(TrimDots(Cleaned(prefix)), tail);
    var both := TrimLeft(TrimDots(Cleaned(prefix))) + tail;
    assert both[|both| - 1] == '.';
  }

  lemma FinishedLength(prefix: string, n: nat)
    requires n > 0
    ensures |Finished(prefix + Replacements(n) + ELLIPSIS)| == |TrimLeft(TrimDots(Cleaned(prefix)))| + n + 3
  {
    var tail := Replacements(n) + ELLIPSIS;
    ReplacementsFacts(n);
    assert prefix + Replacements(n) + ELLIPSIS == prefix + tail;
    FinishedAfterCut(prefix, tail);
  }

  lemma FinishedIsNotLonger(name: string)
    ensures |Finished(name)| <= |Cleaned(name)|
  {
    var k := TrimDotsIsSuffix(Cleaned(name));
    TrimmedOrUnchanged(TrimDots(Cleaned(name)));
  }

  /** A byte order mark at the start is not trimmed, nor are the dots at the end. */
  lemma FinishedKeepsByteOrderMark(rest: string)
    ensures Finished([BYTE_ORDER_MARK] + (rest + ELLIPSIS)) == [BYTE_ORDER_MARK] + Cleaned(rest + ELLIPSIS)
  {
    CleanedFirst(BYTE_ORDER_MARK, rest + ELLIPSIS);
    CleanedConcat(rest, ELLIPSIS);
    CleanedIsClean(ELLIPSIS);
    var cleaned := [BYTE_ORDER_MARK] + Cleaned(rest + ELLIPSIS);
    assert cleaned[|cleaned| - 1] == '.';
    TrimmedOrUnchanged(cleaned);
  }

  predicate LosesByteOrderMark(name: string) {
    IsTooLong(name) && name[0] == BYTE_ORDER_MARK
  }

  lemma ALostMarkIsSeen(name: string)
    requires LosesByteOrderMark(name)
    ensures |ZipSanitiseFilename(name)| < |SanitiseFilename(name)|
  {
    FirstBytesEnd(name);
    var prefix, n := LimitUtf8Bytes(name, MAX_BYTES), CutBytes(name);
    var rest, m := prefix[1..], if n > 0 then 1 else 0;
    ReplacementsFacts(n);
    ReplacementsFacts(m);
    var server, browser := rest + Replacements(n), rest + Replacements(m);
    assert prefix + Replacements(n) + ELLIPSIS == [BYTE_ORDER_MARK] + (server + ELLIPSIS);
    FinishedKeepsByteOrderMark(server);
    FinishedIsNotLonger(browser + ELLIPSIS);
    CutIsCleaned(rest, n);
    CutIsCleaned(rest, m);
  }

  lemma CutIsCleaned(rest: string, n: nat)
    ensures |Cleaned(rest + Replacements(n) + ELLIPSIS)| == |Cleaned(rest)| + n + 3
  {
    ReplacementsFacts(n);
    CleanedConcat(rest + Replacements(n), ELLIPSIS);
    CleanedConcat(rest, Replacements(n));
    CleanedIsClean(Replacements(n));
    CleanedIsClean(ELLIPSIS);
  }

  lemma ACutCharacterIsSeen(name: string)
    requires CutBytes(name) > 1 && !LosesByteOrderMark(name)
    ensures |ZipSanitiseFilename(name)| < |SanitiseFilename(name)|
  {
    FirstBytesEnd(name);
    var prefix := LimitUtf8Bytes(name, MAX_BYTES);
    FinishedLength(prefix, CutBytes(name));
    FinishedLength(prefix, 1);
  }

  /**
   The browser shows the name that the server will store unless the cut leaves two or three bytes of a
   character, or the name is too long and begins with a byte order mark.
   */
  lemma BrowserAgreesWithServer(name: string)
    ensures ZipSanitiseFilename(name) == SanitiseFilename(name) <==> CutBytes(name) <= 1 && !LosesByteOrderMark(name)
  {
    if LosesByteOrderMark(name) {
      ALostMarkIsSeen(name);
    } else if CutBytes(name) > 1 {
      ACutCharacterIsSeen(name);
    } else if IsTooLong(name) {
      FirstBytesEnd(name);
    }
  }

  // ---------------------------------------------------------------- names on which they differ

  function Letters(n: nat): (s: string)
    ensures |s| == n && forall i :: 0 <= i < n ==> s[i] == 'a'
  {
    seq(n, _ => 'a')
  }

  lemma {:induction false} AsciiLength(s: string)
    requires forall i :: 0 <= i < |s| ==> s[i] as int < 0x80
    ensures Utf8Length(s) == |s|
  {
    if s == "" {
    } else {
      AsciiLength(s[1..]);
    }
  }

  /** The limit stops in front of the first character that does not fit. */
  lemma LimitStops(a: string, c: char, rest: string, maxBytes: nat)
    requires Utf8Length(a) <= maxBytes < Utf8Length(a) + Utf8Size(c)
    ensures LimitUtf8Bytes(a + [c] + rest, maxBytes) == a && Utf8Length(a + [c] + rest) > maxBytes
  {
    Utf8LengthConcat(a + [c], rest);
    Utf8LengthConcat(a, [c]);
    LimitStopsAt(a, c, rest, maxBytes);
  }

  lemma {:induction false} LimitStopsAt(a: string, c: char, rest: string, maxBytes: nat)
    requires Utf8Length(a) <= maxBytes < Utf8Length(a) + Utf8Size(c)
    ensures LimitUtf8Bytes(a + [c] + rest, maxBytes) == a
    decreases |a|
  {
    if a == "" {
      assert a + [c] + rest == [c] + rest;
    } else {
      LimitStopsAt(a[1..], c, rest, maxBytes - Utf8Size(a[0]));
      assert (a + [c] + rest)[1..] == a[1..] + [c] + rest;
    }
  }

  lemma FinishedLeavesAlone(s: string)
    requires IsClean(s) && IsTrimmed(s) && (s == "" || s[0] != '.')
    ensures Finished(s) == s
  {
    CleanedIsClean(s);
    TrimmedOrUnchanged(s);
  }

  lemma MarkAndLetters()
    ensures var name, kept := [BYTE_ORDER_MARK] + Letters(400), [BYTE_ORDER_MARK] + Letters(397);
            LimitUtf8Bytes(name, MAX_BYTES) == kept && IsTooLong(name) && CutBytes(name) == 0
  {
    var name, kept := [BYTE_ORDER_MARK] + Letters(400), [BYTE_ORDER_MARK] + Letters(397);
    AsciiLength(Letters(397));
    Utf8LengthConcat([BYTE_ORDER_MARK], Letters(397));
    assert name == kept + ['a'] + Letters(2);
    LimitStops(kept, 'a', Letters(2), MAX_BYTES);
  }

  lemma LettersAreFinished(mark: string)
    requires mark == "" || mark == [BYTE_ORDER_MARK]
    ensures Finished(mark + Letters(397) + ELLIPSIS) == mark + Letters(397) + ELLIPSIS
  {
    FinishedLeavesAlone(mark + Letters(397) + ELLIPSIS);
  }

  /** A byte order mark and 400 letters. */
  lemma AMarkIsLost()
    ensures var name := [BYTE_ORDER_MARK] + Letters(400);
            && CutBytes(name) == 0
            && ZipSanitiseFilename(name) == Letters(397) + ELLIPSIS
            && SanitiseFilename(name) == [BYTE_ORDER_MARK] + Letters(397) + ELLIPSIS
  {
    var name, kept := [BYTE_ORDER_MARK] + Letters(400), [BYTE_ORDER_MARK] + Letters(397);
    MarkAndLetters();
    assert kept[1..] == Letters(397);
    assert Truncated(name) == kept + ELLIPSIS;
    assert ZipTruncated(name) == Letters(397) + ELLIPSIS;
    LettersAreFinished([BYTE_ORDER_MARK]);
    LettersAreFinished("");
    assert "" + Letters(397) + ELLIPSIS == Letters(397) + ELLIPSIS;
  }

  /** 398 letters and a character of three bytes, of which two are left; and 397 and one of four, of which three are left. */
  lemma ACutCharacterDiffers(c: char)
    requires Utf8Size(c) >= 3
    ensures var n := Utf8Size(c) - 1;
            var name := Letters(400 - n) + [c];
            && CutBytes(name) == n
            && ZipSanitiseFilename(name) == Letters(400 - n) + Replacements(1) + ELLIPSIS
            && SanitiseFilename(name) == Letters(400 - n) + Replacements(n) + ELLIPSIS
  {
    var n := Utf8Size(c) - 1;
    var kept := Letters(400 - n);
    var name := kept + [c];
    AsciiLength(kept);
    assert name == kept + [c] + "";
    LimitStops(kept, c, "", MAX_BYTES);
    ReplacementsFacts(n);
    ReplacementsFacts(1);
    assert WithoutByteOrderMark(kept) == kept;
    FinishedLeavesAlone(kept + Replacements(n) + ELLIPSIS);
    FinishedLeavesAlone(kept + Replacements(1) + ELLIPSIS);
  }

  /** A clean name that is too long keeps the characters that fit, and dots show that it was cut. */
  lemma LongNamesAreCut(name: string)
    requires IsTooLong(name) && IsClean(name) && name[0] != '.' && !IsGoSpace(name[0])
    ensures SanitiseFilename(name) == LimitUtf8Bytes(name, MAX_BYTES) + Replacements(CutBytes(name)) + "..."
  {
    var prefix, marks := LimitUtf8Bytes(name, MAX_BYTES), Replacements(CutBytes(name));
    FirstBytesEnd(name);
    ReplacementsFacts(CutBytes(name));
    CutNameIsClean(name, prefix, marks);
    FinishedLeavesAlone(prefix + marks + "...");
  }

  lemma CutNameIsClean(name: string, prefix: string, marks: string)
    requires IsClean(name) && prefix <= name && prefix != "" && forall i :: 0 <= i < |marks| ==> marks[i] == REPLACEMENT
    requires !IsGoSpace(name[0])
    ensures IsClean(prefix + marks + "...") && IsTrimmed(prefix + marks + "...")
  {
    assert forall i :: 0 <= i < |prefix| ==> prefix[i] == name[i];
  }

  /** Of names in ASCII the first 400 characters stay. */
  lemma LongAsciiNamesAreCut(name: string)
    requires |name| > 400 && IsClean(name) && name[0] != '.' && !IsGoSpace(name[0])
    requires forall i :: 0 <= i < |name| ==> name[i] as int < 0x80
    ensures SanitiseFilename(name) == name[..400] + "..."
  {
    var prefix := name[..400];
    AsciiLength(name);
    AsciiLength(prefix);
    assert name == prefix + [name[400]] + name[401..];
    LimitStops(prefix, name[400], name[401..], MAX_BYTES);
    LongNamesAreCut(name);
  }
}
