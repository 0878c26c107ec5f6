/** The name of an archive that is built in the browser. */
module ArchiveName {
  import opened Filenames
  import opened UniqueNames

  const EXTENSION := ".zip"

  /** Ends with the extension, in upper or lower case. */
  predicate HasZipExtension(name: string) {
    var n := |name|;
    n >= 4 && name[n - 4] == '.' && IsZip(name[n - 3], name[n - 2], name[n - 1])
  }

  predicate IsZip(z: char, i: char, p: char) {
    (z == 'z' || z == 'Z') && (i == 'i' || i == 'I') && (p == 'p' || p == 'P')
  }

  predicate EndsWith(s: string, suffix: string) {
    |s| >= |suffix| && s[|s| - |suffix|..] == suffix
  }

  /** The name without the mark of a cut and without one extension. */
  function ArchiveStem(name: string): string {
    var stem := if EndsWith(name, ELLIPSIS) then name[..|name| - 3] else name;
    if HasZipExtension(stem) then stem[..|stem| - 4] else stem
  }

  function WithExtension(name: string): string {
    if HasZipExtension(name) then name else name + EXTENSION
  }

  predicate IsArchiveName(name: string) {
    HasZipExtension(name) && Utf8Length(name) <= MAX_BYTES
  }

  /** What is left of a name that is too long or lost its extension. */
  function ShortStem(sanitised: string): string {
    TrimGoSpace(LimitUtf8Bytes(ArchiveStem(sanitised), MAX_BYTES - |EXTENSION|))
  }

  function ResolveArchiveName(rawName: string, generatedName: string): string {
    var trimmed := TrimGoSpace(rawName);
    if trimmed == "" then generatedName
    else
      var sanitised := ZipSanitiseFilename(WithExtension(trimmed));
      if IsArchiveName(sanitised) then sanitised
      else
        var stem := ShortStem(sanitised);
        var rebuilt := if stem == "" then "" else ZipSanitiseFilename(stem + EXTENSION);
        if IsArchiveName(rebuilt) then rebuilt else generatedName
  }

  /** What the dialog promises of every name. */
  predicate IsWellFormed(name: string) {
    IsArchiveName(name) && IsClean(name) && IsTrimmed(name)
  }

  lemma ResolvedNameIsArchiveName(rawName: string, generatedName: string)
    requires IsWellFormed(generatedName)
    ensures IsWellFormed(ResolveArchiveName(rawName, generatedName))
  {
    var sanitised := ZipSanitiseFilename(WithExtension(TrimGoSpace(rawName)));
    SanitisedIsClean(WithExtension(TrimGoSpace(rawName)));
    SanitisedIsClean(ShortStem(sanitised) + EXTENSION);
  }

  /** Whatever is typed in, the resolved name is well-formed, and the server keeps it exactly if it does not begin with a dot. */
  lemma ResolvedNameIsWellFormed(rawName: string, generatedName: string)
    requires IsWellFormed(generatedName)
    ensures var name := ResolveArchiveName(rawName, generatedName);
            IsWellFormed(name) && (SanitiseFilename(name) == name <==> name[0] != '.')
  {
    ResolvedNameIsArchiveName(rawName, generatedName);
    SanitiseLeavesAlone(ResolveArchiveName(rawName, generatedName));
  }

  lemma ADotBehindASpace(s: string)
    requires |s| > 2 && s[0] == '.' && s[1] == ' ' && s[2] == '.' && !IsGoSpace(s[|s| - 1])
    ensures TrimGoSpace(TrimDots(s)) == s[2..]
  {
    var k := TrimDotsIsSuffix(s);
    assert k == 1;
    var spaced := s[1..];
    var l := TrimLeftIsSuffix(spaced);
    assert spaced[0] == s[1] && spaced[1] == s[2] && !IsGoSpace('.');
    assert l == 1;
    assert spaced[1..] == s[2..];
    assert TrimRight(s[2..]) == s[2..];
  }

  lemma SuffixIsNotLonger(s: string, k: nat)
    requires k <= |s|
    ensures Utf8Length(s[k..]) <= Utf8Length(s)
  {
    Utf8LengthConcat(s[..k], s[k..]);
    assert s == s[..k] + s[k..];
  }

  /** A space hides a second leading dot from the first pass: every such name still begins with a dot, and the server changes it. */
  lemma ALeadingDotMayRemain(rawName: string, generatedName: string)
    requires IsClean(rawName) && IsTrimmed(rawName) && IsArchiveName(rawName)
    requires rawName[0] == '.' && rawName[1] == ' ' && rawName[2] == '.'
    ensures var name := ResolveArchiveName(rawName, generatedName); name == rawName[2..] && SanitiseFilename(name) != name
  {
    TrimmedOrUnchanged(rawName);
    SanitisedBehindASpace(rawName);
    SanitiseLeavesAlone(rawName[2..]);
  }

  lemma SanitisedBehindASpace(rawName: string)
    requires IsClean(rawName) && IsTrimmed(rawName) && IsArchiveName(rawName)
    requires rawName[0] == '.' && rawName[1] == ' ' && rawName[2] == '.'
    ensures ZipSanitiseFilename(rawName) == rawName[2..] && rawName[2..][0] == '.'
    ensures IsArchiveName(rawName[2..]) && IsClean(rawName[2..]) && IsTrimmed(rawName[2..])
  {
    CleanedIsClean(rawName);
    ADotBehindASpace(rawName);
    SuffixIsNotLonger(rawName, 2);
    SuffixKeepsExtension(rawName);
  }

  lemma SuffixKeepsExtension(name: string)
    requires HasZipExtension(name) && name[0] == '.' && name[1] == ' ' && IsClean(name) && IsTrimmed(name) && !IsGoSpace(name[2])
    ensures HasZipExtension(name[2..]) && IsClean(name[2..]) && IsTrimmed(name[2..])
  {
    assert |name| >= 6;
  }

  /** A proper name is kept as it was typed, with the extension added. */
  lemma ProperNamesAreKept(rawName: string, generatedName: string)
    requires IsClean(rawName) && rawName != "" && rawName[0] != '.' && IsTrimmed(rawName)
    requires Utf8Length(WithExtension(rawName)) <= MAX_BYTES
    ensures ResolveArchiveName(rawName, generatedName) == WithExtension(rawName)
  {
    TrimmedOrUnchanged(rawName);
    ProperNameWithExtension(rawName);
    SanitiseLeavesAlone(WithExtension(rawName));
  }

  lemma ProperNameWithExtension(name: string)
    requires IsClean(name) && name != "" && IsTrimmed(name)
    ensures IsClean(WithExtension(name)) && IsTrimmed(WithExtension(name)) && HasZipExtension(WithExtension(name))
    ensures WithExtension(name)[0] == name[0]
  {}

  // ---------------------------------------------------------------- when the generated name is used

  predicate OnlyDots(s: string) {
    forall i :: 0 <= i < |s| ==> s[i] == '.'
  }

  /** Nothing usable was typed: the name is blank, or only dots are left of it. */
  predicate IsNothingLeft(rawName: string) {
    var trimmed := TrimGoSpace(rawName);
    trimmed == "" || (var sanitised := ZipSanitiseFilename(WithExtension(trimmed));
                      !IsArchiveName(sanitised) && OnlyDots(ShortStem(sanitised)))
  }

  lemma TrimmedIsNotLonger(s: string)
    ensures Utf8Length(TrimGoSpace(s)) <= Utf8Length(s)
    ensures IsClean(s) ==> IsClean(TrimGoSpace(s))
  {
    var k := TrimLeftIsSuffix(s);
    var left := TrimLeft(s);
    var j := TrimRightIsPrefix(left);
    assert s == s[..k] + left && left == left[..j] + left[j..];
    Utf8LengthConcat(s[..k], left);
    Utf8LengthConcat(left[..j], left[j..]);
    assert forall i :: 0 <= i < j ==> left[..j][i] == s[k + i];
  }

  lemma ShortStemFacts(sanitised: string)
    requires IsClean(sanitised)
    ensures var stem := ShortStem(sanitised);
            IsClean(stem) && IsTrimmed(stem) && Utf8Length(stem) <= MAX_BYTES - 4
  {
    var stem := ArchiveStem(sanitised);
    var limited := LimitUtf8Bytes(stem, MAX_BYTES - |EXTENSION|);
    LimitIsLongestPrefix(stem, MAX_BYTES - |EXTENSION|);
    TrimmedOrUnchanged(limited);
    TrimmedIsNotLonger(limited);
    assert forall i :: 0 <= i < |limited| ==> limited[i] == sanitised[i];
  }

  /** Nothing but dots becomes a name without an extension. */
  lemma DotsAreNoName(stem: string)
    requires OnlyDots(stem) && Utf8Length(stem + EXTENSION) <= MAX_BYTES
    ensures !IsArchiveName(ZipSanitiseFilename(stem + EXTENSION))
  {
    var name := stem + EXTENSION;
    assert IsClean(name);
    CleanedIsClean(name);
    var k := TrimDotsIsSuffix(name);
    assert name[|stem| + 1] == 'z' && name[|stem|] == '.';
    assert k == |stem| + 1;
    TrimmedOrUnchanged(name[k..]);
  }

  lemma TrimLeftBeforeDot(s: string, d: nat)
    requires d + 4 == |s| && HasZipExtension(s)
    ensures HasZipExtension(TrimGoSpace(s)) && Utf8Length(TrimGoSpace(s)) <= Utf8Length(s)
  {
    var l := TrimLeftIsSuffix(s);
    assert !IsGoSpace(s[d]);
    assert l <= d;
    var left := s[l..];
    assert left[|left| - 1] == s[d + 3];
    TrimmedIsNotLonger(s);
  }

  lemma MoreThanDotsIsAName(stem: string)
    requires !OnlyDots(stem) && IsClean(stem + EXTENSION) && Utf8Length(stem + EXTENSION) <= MAX_BYTES
    ensures IsArchiveName(ZipSanitiseFilename(stem + EXTENSION))
  {
    var name := stem + EXTENSION;
    CleanedIsClean(name);
    var k := TrimDotsIsSuffix(name);
    var i :| 0 <= i < |stem| && stem[i] != '.';
    assert name[i] != '.';
    assert k <= i;
    assert HasZipExtension(name) && HasZipExtension(name[k..]);
    TrimLeftBeforeDot(name[k..], |stem| - k);
    SuffixIsNotLonger(name, k);
  }

  lemma ShortWithExtension(stem: string)
    requires IsClean(stem) && Utf8Length(stem) <= MAX_BYTES - 4
    ensures IsClean(stem + EXTENSION) && Utf8Length(stem + EXTENSION) <= MAX_BYTES
  {
    AsciiLength(EXTENSION);
    Utf8LengthConcat(stem, EXTENSION);
    assert IsClean(EXTENSION);
  }

  /** A stem that is more than dots gives an archive name. */
  lemma RebuiltName(stem: string)
    requires stem != "" && IsClean(stem) && Utf8Length(stem) <= MAX_BYTES - 4
    ensures IsArchiveName(ZipSanitiseFilename(stem + EXTENSION)) <==> !OnlyDots(stem)
  {
    ShortWithExtension(stem);
    if OnlyDots(stem) {
      DotsAreNoName(stem);
    } else {
      MoreThanDotsIsAName(stem);
    }
  }

  lemma GeneratedNameIsUsedIfNothingIsLeft(rawName: string, generatedName: string, other: string)
    requires generatedName != other
    ensures IsNothingLeft(rawName) ==> ResolveArchiveName(rawName, generatedName) == generatedName
    ensures ResolveArchiveName(rawName, generatedName) == ResolveArchiveName(rawName, other) <==> !IsNothingLeft(rawName)
  {
    var trimmed := TrimGoSpace(rawName);
    if trimmed != "" {
      var sanitised := ZipSanitiseFilename(WithExtension(trimmed));
      SanitisedIsClean(WithExtension(trimmed));
      ShortStemFacts(sanitised);
      if ShortStem(sanitised) != "" {
        RebuiltName(ShortStem(sanitised));
      }
    }
  }

  // ---- names within the limit

  lemma ThreeLettersAreAName(letters: string)
    requires |letters| == 3 && IsZip(letters[0], letters[1], letters[2])
    ensures !IsArchiveName(letters) && !OnlyDots(ShortStem(letters)) && ShortStem(letters) == letters
  {
    AsciiLength(letters);
    assert !EndsWith(letters, ELLIPSIS) by {
      assert letters[0] != ELLIPSIS[0];
    }
    LimitIsLongestPrefix(letters, MAX_BYTES - |EXTENSION|);
    assert LimitUtf8Bytes(letters, MAX_BYTES - |EXTENSION|) == letters by {
      LimitOfFitting(letters, MAX_BYTES - |EXTENSION|);
    }
    TrimmedOrUnchanged(letters);
  }

  lemma {:induction false} LimitOfFitting(s: string, maxBytes: nat)
    requires Utf8Length(s) <= maxBytes
    ensures LimitUtf8Bytes(s, maxBytes) == s
  {
    if s == "" {
    } else {
      LimitOfFitting(s[1..], maxBytes - Utf8Size(s[0]));
    }
  }

  lemma {:induction false} CleanedIsNotLongerInBytes(s: string)
    ensures Utf8Length(Cleaned(s)) <= Utf8Length(s)
  {
    if s == "" {
    } else {
      CleanedIsNotLongerInBytes(s[1..]);
      var rest := Cleaned(s[1..]);
      assert !IsControl(s[0]) ==> Cleaned(s)[1..] == rest;
    }
  }

  lemma {:induction false} TrimDotsOfMore(a: string, b: string)
    requires !OnlyDots(a)
    ensures TrimDots(a + b) == TrimDots(a) + b
  {
    if a[0] != '.' {
    } else {
      assert !OnlyDots(a[1..]);
      TrimDotsOfMore(a[1..], b);
      assert (a + b)[1..] == a[1..] + b;
    }
  }

  lemma {:induction false} TrimDotsOfDots(a: string, b: string)
    requires OnlyDots(a)
    ensures TrimDots(a + b) == TrimDots(b)
  {
    if a == "" {
      assert a + b == b;
    } else {
      TrimDotsOfDots(a[1..], b);
      assert (a + b)[1..] == a[1..] + b;
    }
  }

  /** The extension of a name survives the cleaning of the name. */
  lemma CleanedExtension(name: string)
    requires HasZipExtension(name)
    ensures var base, extension := Cleaned(name[..|name| - 4]), name[|name| - 4..];
            Cleaned(name) == base + extension && HasZipExtension(base + extension)
  {
    var base, extension := name[..|name| - 4], name[|name| - 4..];
    assert name == base + extension;
    CleanedConcat(base, extension);
    ExtensionIsClean(extension);
    CleanedIsClean(extension);
  }

  lemma ExtensionIsClean(extension: string)
    requires |extension| == 4 && HasZipExtension(extension)
    ensures IsClean(extension)
  {}

  lemma DotsBeforeExtension(base: string, extension: string)
    requires OnlyDots(base) && |extension| == 4 && HasZipExtension(extension)
    ensures TrimGoSpace(TrimDots(base + extension)) == extension[1..]
    ensures IsZip(extension[1..][0], extension[1..][1], extension[1..][2])
  {
    var letters := extension[1..];
    TrimDotsOfDots(base, extension);
    assert TrimDots(extension) == letters;
    TrimmedOrUnchanged(letters);
  }

  lemma MoreBeforeExtension(base: string, extension: string)
    requires !OnlyDots(base) && |extension| == 4 && HasZipExtension(extension)
    ensures var r := TrimGoSpace(TrimDots(base + extension)); HasZipExtension(r) && Utf8Length(r) <= Utf8Length(base + extension)
  {
    var name, dotless := base + extension, TrimDots(base) + extension;
    TrimDotsOfMore(base, extension);
    EndsInExtension(TrimDots(base), extension);
    var k := TrimDotsIsSuffix(name);
    SuffixIsNotLonger(name, k);
    TrimLeftBeforeDot(dotless, |dotless| - 4);
  }

  lemma EndsInExtension(base: string, extension: string)
    requires |extension| == 4 && HasZipExtension(extension)
    ensures HasZipExtension(base + extension)
  {}

  lemma ShortNameIsUsable(name: string)
    requires HasZipExtension(name) && !IsTooLong(name)
    ensures var sanitised := ZipSanitiseFilename(name); IsArchiveName(sanitised) || !OnlyDots(ShortStem(sanitised))
  {
    var base, extension := Cleaned(name[..|name| - 4]), name[|name| - 4..];
    CleanedExtension(name);
    CleanedIsNotLongerInBytes(name);
    if OnlyDots(base) {
      DotsBeforeExtension(base, extension);
      ThreeLettersAreAName(extension[1..]);
    } else {
      MoreBeforeExtension(base, extension);
    }
  }

  // ---- names that are cut

  /** What is left of the first 400 bytes without control characters, leading dots, and spaces behind those. */
  function Visible(name: string): string {
    TrimLeft(TrimDots(Cleaned(FirstBytes(name))))
  }

  function WithoutZip(s: string): string {
    if HasZipExtension(s) then s[..|s| - 4] else s
  }

  predicate IsDotsThenSpaces(s: string) {
    && (forall i :: 0 <= i < |s| ==> s[i] == '.' || IsGoSpace(s[i]))
    && (forall i, j :: 0 <= i < j < |s| && IsGoSpace(s[i]) ==> IsGoSpace(s[j]))
  }

  lemma OnlyDotsAfterTrimming(s: string)
    requires s == "" || !IsGoSpace(s[0])
    ensures OnlyDots(TrimGoSpace(s)) <==> IsDotsThenSpaces(s)
  {
    assert TrimLeft(s) == s;
    var k := TrimRightIsPrefix(s);
    assert TrimGoSpace(s) == s[..k];
    if OnlyDots(s[..k]) {
      assert forall i :: 0 <= i < k ==> s[..k][i] == s[i] == '.';
      assert !IsGoSpace('.');
    }
    if IsDotsThenSpaces(s) {
      forall i | 0 <= i < k
        ensures s[..k][i] == '.'
      {
        assert !IsGoSpace(s[k - 1]);
        assert s[..k][i] == s[i];
      }
    }
  }

  lemma SanitisedCutName(name: string)
    requires IsTooLong(name)
    ensures ZipSanitiseFilename(name) == if OnlyDots(Cleaned(FirstBytes(name))) then "" else Visible(name) + ELLIPSIS
    ensures OnlyDots(Cleaned(FirstBytes(name))) ==> Visible(name) == ""
  {
    var cleaned := Cleaned(FirstBytes(name));
    CleanedConcat(FirstBytes(name), ELLIPSIS);
    CleanedIsClean(ELLIPSIS);
    assert ZipSanitiseFilename(name) == TrimGoSpace(TrimDots(cleaned + ELLIPSIS));
    if OnlyDots(cleaned) {
      TrimDotsOfDots(cleaned, ELLIPSIS);
      TrimDotsOfDots(cleaned, "");
      assert cleaned + "" == cleaned;
      TrimDotsOfDots(ELLIPSIS, "");
      assert ELLIPSIS + "" == ELLIPSIS;
    } else {
      TrimDotsOfMore(cleaned, ELLIPSIS);
      assert ELLIPSIS[0] == '.' && !IsGoSpace('.');
      TrimLeftBefore(TrimDots(cleaned), ELLIPSIS);
      var r := Visible(name) + ELLIPSIS;
      assert r[|r| - 1] == '.';
      assert TrimRight(r) == r;
    }
  }

  lemma StemOfCutName(name: string)
    requires IsTooLong(name)
    ensures ArchiveStem(ZipSanitiseFilename(name)) == WithoutZip(Visible(name)) && !IsArchiveName(ZipSanitiseFilename(name))
  {
    var sanitised := ZipSanitiseFilename(name);
    SanitisedCutName(name);
    if sanitised != "" {
      assert sanitised[|sanitised| - 1] == '.';
      assert sanitised[|sanitised| - 3..] == ELLIPSIS && sanitised[..|sanitised| - 3] == Visible(name);
    }
  }

  lemma CutNameLeavesNothing(name: string)
    requires IsTooLong(name)
    ensures OnlyDots(ShortStem(ZipSanitiseFilename(name)))
            <==> IsDotsThenSpaces(LimitUtf8Bytes(WithoutZip(Visible(name)), MAX_BYTES - |EXTENSION|))
  {
    StemOfCutName(name);
    var k := TrimLeftIsSuffix(TrimDots(Cleaned(FirstBytes(name))));
    var stem := WithoutZip(Visible(name));
    LimitIsLongestPrefix(stem, MAX_BYTES - |EXTENSION|);
    var limited := LimitUtf8Bytes(stem, MAX_BYTES - |EXTENSION|);
    assert limited != "" ==> limited[0] == Visible(name)[0];
    OnlyDotsAfterTrimming(limited);
  }

  /**
   Nothing usable was typed: the name is blank, or with its extension it is longer than 400 bytes and in its
   first 400 bytes, behind leading dots and spaces and in front of a .zip, there are only dots and then spaces.
   */
  predicate IsUnusable(rawName: string) {
    var trimmed := TrimGoSpace(rawName);
    var name := WithExtension(trimmed);
    || trimmed == ""
    || (IsTooLong(name) && IsDotsThenSpaces(LimitUtf8Bytes(WithoutZip(Visible(name)), MAX_BYTES - |EXTENSION|)))
  }

  /** The generated name is used exactly if nothing usable was typed; otherwise the result does not depend on it. */
  lemma WhenTheGeneratedNameIsUsed(rawName: string, generatedName: string, other: string)
    requires generatedName != other
    ensures IsUnusable(rawName) ==> ResolveArchiveName(rawName, generatedName) == generatedName
    ensures ResolveArchiveName(rawName, generatedName) == ResolveArchiveName(rawName, other) <==> !IsUnusable(rawName)
  {
    GeneratedNameIsUsedIfNothingIsLeft(rawName, generatedName, other);
    var name := WithExtension(TrimGoSpace(rawName));
    if IsTooLong(name) {
      StemOfCutName(name);
      CutNameLeavesNothing(name);
    } else {
      ShortNameIsUsable(name);
    }
  }

  /** A name that fits with its extension gives way to the generated one exactly if it is blank. */
  lemma ShortNamesAreReplacedIfBlank(rawName: string, generatedName: string, other: string)
    requires generatedName != other && !IsTooLong(WithExtension(TrimGoSpace(rawName)))
    ensures ResolveArchiveName(rawName, generatedName) == ResolveArchiveName(rawName, other) <==> TrimGoSpace(rawName) != ""
  {
    WhenTheGeneratedNameIsUsed(rawName, generatedName, other);
  }

  // ---- when the server keeps the name

  predicate BeginsWithDot(s: string) {
    s != "" && s[0] == '.'
  }

  /** Behind leading dots, and spaces behind those, there is another dot. */
  predicate HidesADot(s: string) {
    BeginsWithDot(TrimLeft(TrimDots(s)))
  }

  lemma FinishedHidesADot(name: string)
    ensures BeginsWithDot(Finished(name)) <==> HidesADot(Cleaned(name))
  {
    var t := TrimLeft(TrimDots(Cleaned(name)));
    var l := TrimLeftIsSuffix(TrimDots(Cleaned(name)));
    var k := TrimRightIsPrefix(t);
    assert !IsGoSpace('.');
    if t == "" {
    } else {
      assert k == 0 ==> IsGoSpace(t[0]);
      assert k > 0 ==> TrimRight(t)[0] == t[0];
    }
  }

  lemma {:induction false} TrimLeftOfMore(a: string, b: string)
    requires a != "" && !IsGoSpace(a[|a| - 1])
    ensures TrimLeft(a) != "" && TrimLeft(a + b) == TrimLeft(a) + b
  {
    if !IsGoSpace(a[0]) {
    } else {
      TrimLeftOfMore(a[1..], b);
      assert (a + b)[1..] == a[1..] + b;
    }
  }

  /** What stands behind a text that is more than dots has no influence. */
  lemma TextBehindHidesNothing(a: string, b: string)
    requires a != "" && !IsGoSpace(a[|a| - 1]) && !OnlyDots(a)
    ensures HidesADot(a + b) <==> HidesADot(a)
  {
    TrimDotsOfMore(a, b);
    var k := TrimDotsIsSuffix(a);
    assert k < |a|;
    var dotless := a[k..];
    assert dotless[|dotless| - 1] == a[|a| - 1];
    TrimLeftOfMore(dotless, b);
  }

  lemma ShortNameKept(name: string)
    requires HasZipExtension(name) && !IsTooLong(name)
    ensures var sanitised := ZipSanitiseFilename(name);
            if IsArchiveName(sanitised) then BeginsWithDot(sanitised) <==> HidesADot(Cleaned(name))
            else !HidesADot(Cleaned(name)) && ShortStem(sanitised) != "" && !BeginsWithDot(ShortStem(sanitised))
                 && IsArchiveName(ZipSanitiseFilename(ShortStem(sanitised) + EXTENSION))
                 && !BeginsWithDot(ZipSanitiseFilename(ShortStem(sanitised) + EXTENSION))
  {
    var base, extension := Cleaned(name[..|name| - 4]), name[|name| - 4..];
    CleanedExtension(name);
    CleanedIsNotLongerInBytes(name);
    FinishedHidesADot(name);
    if OnlyDots(base) {
      DotsBeforeExtension(base, extension);
      ThreeLettersAreAName(extension[1..]);
      LettersHideNothing(extension[1..]);
    } else {
      MoreBeforeExtension(base, extension);
    }
  }

  lemma LettersHideNothing(letters: string)
    requires |letters| == 3 && IsZip(letters[0], letters[1], letters[2])
    ensures IsArchiveName(ZipSanitiseFilename(letters + EXTENSION)) && !BeginsWithDot(ZipSanitiseFilename(letters + EXTENSION))
  {
    AsciiLength(letters + EXTENSION);
    assert IsClean(letters + EXTENSION) && IsTrimmed(letters + EXTENSION);
    SanitiseLeavesAlone(letters + EXTENSION);
  }

  /** The part of a typed name that decides: all of it, or what is left of its first 400 bytes. */
  function DecidingText(name: string): string {
    if IsTooLong(name) then LimitUtf8Bytes(WithoutZip(Visible(name)), MAX_BYTES - |EXTENSION|) else Cleaned(name)
  }

  /** A text without leading spaces is its trimmed form with spaces behind it. */
  lemma TrimmedAndSpaces(s: string) returns (spaces: string)
    requires s == "" || !IsGoSpace(s[0])
    ensures s == TrimGoSpace(s) + spaces
  {
    assert TrimLeft(s) == s;
    var k := TrimRightIsPrefix(s);
    spaces := s[k..];
  }

  lemma StemHidesADot(name: string)
    requires IsTooLong(name) && !OnlyDots(ShortStem(ZipSanitiseFilename(name)))
    ensures var stem := ShortStem(ZipSanitiseFilename(name));
            HidesADot(stem + EXTENSION) <==> HidesADot(DecidingText(name))
  {
    var stem, limited := ShortStem(ZipSanitiseFilename(name)), DecidingText(name);
    StemOfCutName(name);
    assert stem == TrimGoSpace(limited);
    TrimmedOrUnchanged(limited);
    LimitedVisible(name);
    var spaces := TrimmedAndSpaces(limited);
    TextBehindHidesNothing(stem, spaces);
    TextBehindHidesNothing(stem, EXTENSION);
  }

  lemma LimitedVisible(name: string)
    requires IsTooLong(name)
    ensures DecidingText(name) == "" || !IsGoSpace(DecidingText(name)[0])
  {
    var k := TrimLeftIsSuffix(TrimDots(Cleaned(FirstBytes(name))));
    LimitIsLongestPrefix(WithoutZip(Visible(name)), MAX_BYTES - |EXTENSION|);
    assert DecidingText(name) != "" ==> DecidingText(name)[0] == Visible(name)[0];
  }

  lemma CutNameKept(name: string)
    requires IsTooLong(name) && !OnlyDots(ShortStem(ZipSanitiseFilename(name)))
    ensures var rebuilt := ZipSanitiseFilename(ShortStem(ZipSanitiseFilename(name)) + EXTENSION);
            IsArchiveName(rebuilt) && (BeginsWithDot(rebuilt) <==> HidesADot(DecidingText(name)))
  {
    StemHidesADot(name);
    SanitisedIsClean(name);
    StemIsKept(ZipSanitiseFilename(name));
  }

  lemma StemIsKept(sanitised: string)
    requires IsClean(sanitised) && !OnlyDots(ShortStem(sanitised))
    ensures var name := ShortStem(sanitised) + EXTENSION;
            IsArchiveName(ZipSanitiseFilename(name)) && (BeginsWithDot(ZipSanitiseFilename(name)) <==> HidesADot(name))
  {
    var stem := ShortStem(sanitised);
    ShortStemFacts(sanitised);
    RebuiltName(stem);
    RebuiltHidesADot(stem);
  }

  lemma RebuiltHidesADot(stem: string)
    requires IsClean(stem) && Utf8Length(stem) <= MAX_BYTES - 4
    ensures BeginsWithDot(ZipSanitiseFilename(stem + EXTENSION)) <==> HidesADot(stem + EXTENSION)
  {
    ShortWithExtension(stem);
    CleanedIsClean(stem + EXTENSION);
    FinishedHidesADot(stem + EXTENSION);
  }

  /**
   The server keeps the resolved name exactly if the generated name is used, or the typed one hides no dot
   behind leading dots and spaces. The generated name itself must not begin with a dot.
   */
  lemma ServerKeepsTheResolvedName(rawName: string, generatedName: string)
    requires IsWellFormed(generatedName)
    ensures var name := ResolveArchiveName(rawName, generatedName);
            SanitiseFilename(name) == name
            <==> if IsUnusable(rawName) then !BeginsWithDot(generatedName)
                 else !HidesADot(DecidingText(WithExtension(TrimGoSpace(rawName))))
  {
    ResolvedNameIsWellFormed(rawName, generatedName);
    if IsUnusable(rawName) {
      WhenTheGeneratedNameIsUsed(rawName, generatedName, generatedName + ".");
    } else {
      ResolvedBeginsWithDot(rawName, generatedName);
    }
  }

  lemma ResolvedBeginsWithDot(rawName: string, generatedName: string)
    requires !IsUnusable(rawName)
    ensures BeginsWithDot(ResolveArchiveName(rawName, generatedName))
            <==> HidesADot(DecidingText(WithExtension(TrimGoSpace(rawName))))
  {
    var name := WithExtension(TrimGoSpace(rawName));
    if IsTooLong(name) {
      StemOfCutName(name);
      CutNameLeavesNothing(name);
      CutNameKept(name);
    } else {
      ExtensionIsThere(TrimGoSpace(rawName));
      ShortNameKept(name);
    }
  }

  lemma ExtensionIsThere(name: string)
    ensures HasZipExtension(WithExtension(name))
  {}

  // ---- names made of dots

  function Dots(n: nat): (s: string)
    ensures |s| == n && OnlyDots(s)
  {
    seq(n, _ => '.')
  }

  /** Up to 396 dots give the name "zip.zip". */
  lemma FewDots(n: nat, generatedName: string)
    requires 0 < n <= 396
    ensures ResolveArchiveName(Dots(n), generatedName) == "zip.zip"
  {
    var raw := Dots(n);
    TrimmedOrUnchanged(raw);
    DotsAndExtension(n);
    ThreeLettersAreAName("zip");
    LettersAreRebuilt();
  }

  lemma DotsAndExtension(n: nat)
    requires n <= 396
    ensures ZipSanitiseFilename(Dots(n) + EXTENSION) == "zip"
  {
    var name, letters := Dots(n) + EXTENSION, "zip";
    AsciiLength(name);
    assert IsClean(name);
    CleanedIsClean(name);
    TrimDotsOfDots(Dots(n), EXTENSION);
    assert EXTENSION[1..] == letters;
    assert TrimDots(EXTENSION) == letters;
    TrimmedOrUnchanged(letters);
  }

  lemma LettersAreRebuilt()
    ensures ZipSanitiseFilename("zip" + EXTENSION) == "zip.zip" && IsArchiveName("zip.zip")
  {
    var name := "zip.zip";
    assert "zip" + EXTENSION == name;
    PlainIsClean(name);
    AsciiLength(name);
    SanitiseLeavesAlone(name);
  }

  lemma PlainIsClean(name: string)
    requires IsPlain(name) && |name| > 0
    ensures IsClean(name) && IsTrimmed(name) && forall i :: 0 <= i < |name| ==> name[i] as int < 0x80
  {}

  /** From 399 dots on the generated name is used. */
  lemma ManyDots(n: nat, generatedName: string)
    requires n >= 399
    ensures ResolveArchiveName(Dots(n), generatedName) == generatedName
  {
    var raw, name := Dots(n), Dots(n) + EXTENSION;
    TrimmedOrUnchanged(raw);
    assert name == Dots(400) + [name[400]] + name[401..];
    DotsAreCut(name, "", 400);
    WhenTheGeneratedNameIsUsed(raw, generatedName, generatedName + ".");
  }

  /** A byte order mark in front of many dots is dropped, so that nothing is left but dots. */
  lemma ManyDotsBehindAMark(n: nat, generatedName: string)
    requires n >= 396
    ensures ResolveArchiveName([BYTE_ORDER_MARK] + Dots(n), generatedName) == generatedName
  {
    var raw, name := [BYTE_ORDER_MARK] + Dots(n), [BYTE_ORDER_MARK] + Dots(n) + EXTENSION;
    TrimmedOrUnchanged(raw);
    assert name == [BYTE_ORDER_MARK] + Dots(397) + [name[398]] + name[399..];
    DotsAreCut(name, [BYTE_ORDER_MARK], 397);
    WhenTheGeneratedNameIsUsed(raw, generatedName, generatedName + ".");
  }

  lemma DotsAreCut(name: string, mark: string, n: nat)
    requires (mark == "" && n == 400) || (mark == [BYTE_ORDER_MARK] && n == 397)
    requires |name| > |mark| + n && name == mark + Dots(n) + [name[|mark| + n]] + name[|mark| + n + 1..]
    ensures IsTooLong(name) && Visible(name) == ""
  {
    AsciiLength(Dots(n));
    Utf8LengthConcat(mark, Dots(n));
    LimitStops(mark + Dots(n), name[|mark| + n], name[|mark| + n + 1..], MAX_BYTES);
    assert WithoutByteOrderMark(mark + Dots(n)) == Dots(n);
    assert FirstBytes(name) == Dots(n);
    CleanedIsClean(Dots(n));
    TrimDotsOfDots(Dots(n), "");
    assert Dots(n) + "" == Dots(n);
  }

  // ---------------------------------------------------------------- the generated name

  function Pad(value: nat): string {
    if |Itoa(value)| < 2 then "0" + Itoa(value) else Itoa(value)
  }

  function GenerateName(year: int, month: nat, day: nat, hour: nat, minute: nat): string {
    DatePart(year, month, day) + TimePart(hour, minute) + EXTENSION
  }

  function DatePart(year: int, month: nat, day: nat): string {
    "partage-" + YearPart(year) + "-" + Pad(month) + "-" + Pad(day)
  }

  function YearPart(year: int): string {
    if year < 0 then "-" + Itoa(-year) else Itoa(year)
  }

  function TimePart(hour: nat, minute: nat): string {
    "-" + Pad(hour) + "-" + Pad(minute)
  }

  predicate IsPlain(s: string) {
    forall i :: 0 <= i < |s| ==> 'a' <= s[i] <= 'z' || '0' <= s[i] <= '9' || s[i] == '-' || s[i] == '.'
  }

  lemma PlainConcat(a: string, b: string)
    requires IsPlain(a) && IsPlain(b)
    ensures IsPlain(a + b)
  {}

  lemma {:induction false} ItoaIsShort(n: nat, digits: nat, bound: nat)
    requires digits > 0 && n < bound && bound == Power10(digits)
    ensures |Itoa(n)| <= digits && IsPlain(Itoa(n))
  {
    if n < 10 {
    } else {
      assert Power10(digits) == 10 * Power10(digits - 1);
      ItoaIsShort(n / 10, digits - 1, Power10(digits - 1));
    }
  }

  function Power10(n: nat): nat {
    if n == 0 then 1 else 10 * Power10(n - 1)
  }

  lemma PlainDate(year: int, month: nat, day: nat)
    requires -1_000_000 < year < 1_000_000 && month < 100 && day < 100
    ensures IsPlain(DatePart(year, month, day)) && 8 <= |DatePart(year, month, day)| <= 21 && DatePart(year, month, day)[0] == 'p'
  {
    PlainYear(year);
    PadIsShort(month);
    PadIsShort(day);
    PlainConcat("partage-", YearPart(year));
    PlainConcat("partage-" + YearPart(year), "-");
    PlainConcat("partage-" + YearPart(year) + "-", Pad(month));
    PlainConcat("partage-" + YearPart(year) + "-" + Pad(month), "-");
    PlainConcat("partage-" + YearPart(year) + "-" + Pad(month) + "-", Pad(day));
  }

  lemma PlainYear(year: int)
    requires -1_000_000 < year < 1_000_000
    ensures IsPlain(YearPart(year)) && |YearPart(year)| <= 7
  {
    var n: nat := if year < 0 then -year else year;
    assert Power10(6) == 1_000_000;
    ItoaIsShort(n, 6, 1_000_000);
    PlainConcat("-", Itoa(n));
  }

  lemma PlainTime(hour: nat, minute: nat)
    requires hour < 100 && minute < 100
    ensures IsPlain(TimePart(hour, minute)) && |TimePart(hour, minute)| <= 6
  {
    PadIsShort(hour);
    PadIsShort(minute);
    PlainConcat("-", Pad(hour));
    PlainConcat("-" + Pad(hour), "-");
    PlainConcat("-" + Pad(hour) + "-", Pad(minute));
  }

  lemma PadIsShort(value: nat)
    requires value < 100
    ensures IsPlain(Pad(value)) && |Pad(value)| == 2
  {
    assert Power10(2) == 100;
    ItoaIsShort(value, 2, 100);
    PlainConcat("0", Itoa(value));
  }

  lemma PlainNameIsKept(base: string)
    requires IsPlain(base) && 0 < |base| <= 100 && base[0] == 'p'
    ensures IsWellFormed(base + EXTENSION) && SanitiseFilename(base + EXTENSION) == base + EXTENSION
  {
    var name := base + EXTENSION;
    AsciiLength(name);
    assert name[|base|] == '.' && name[|base| + 1] == 'z' && name[|base| + 2] == 'i' && name[|base| + 3] == 'p';
    SanitiseLeavesAlone(name);
  }

  /** Every date that a browser can represent gives a well-formed name that the server keeps. */
  lemma GeneratedNameIsWellFormed(year: int, month: nat, day: nat, hour: nat, minute: nat)
    requires -1_000_000 < year < 1_000_000 && month < 100 && day < 100 && hour < 100 && minute < 100
    ensures var name := GenerateName(year, month, day, hour, minute); IsWellFormed(name) && SanitiseFilename(name) == name
  {
    PlainDate(year, month, day);
    PlainTime(hour, minute);
    PlainConcat(DatePart(year, month, day), TimePart(hour, minute));
    PlainNameIsKept(DatePart(year, month, day) + TimePart(hour, minute));
  }

  lemma PaddedIsTheNumber(value: nat)
    requires value < 100
    ensures |Pad(value)| == 2 && Atoi(Pad(value)) == value
  {
    PadIsShort(value);
    AtoiUndoesItoa(value);
    if value < 10 {
      assert Itoa(value) == [Digit(value)];
      assert ("0" + Itoa(value))[..1] == "0" && Atoi("0") == 0;
    }
  }

  /** The year is written in digits, behind a minus sign if it is negative. */
  predicate IsYear(text: string, year: int) {
    if year < 0 then text != "" && text[0] == '-' && IsNumber(text[1..], -year) else IsNumber(text, year)
  }

  predicate IsNumber(text: string, n: nat) {
    text != "" && Atoi(text) == n && forall i :: 0 <= i < |text| ==> '0' <= text[i] <= '9'
  }

  lemma YearIsWritten(year: int)
    ensures IsYear(YearPart(year), year)
  {
    var n: nat := if year < 0 then -year else year;
    AtoiUndoesItoa(n);
    ItoaIsDecimal(n);
  }

  /** The parts of the generated name. */
  datatype NameParts = NameParts(prefix: string, year: string, month: string, day: string, hour: string, minute: string, suffix: string)

  function PartsOfGenerated(name: string): NameParts
    requires |name| >= 24
  {
    var e := |name| - 16;
    NameParts(name[..8], name[8..e], name[e + 1..e + 3], name[e + 4..e + 6], name[e + 7..e + 9], name[e + 10..e + 12], name[e + 12..])
  }

  lemma PartsAreThere(year: string, month: string, day: string, hour: string, minute: string)
    requires |month| == |day| == |hour| == |minute| == 2
    ensures var name := ("partage-" + year + "-" + month + "-" + day) + ("-" + hour + "-" + minute) + ".zip";
            && |name| == 24 + |year| && PartsOfGenerated(name) == NameParts("partage-", year, month, day, hour, minute, ".zip")
            && var e := 8 + |year|; name[e] == name[e + 3] == name[e + 6] == name[e + 9] == '-'
  {}

  /** The generated name shows year, month, day, hour and minute in this order. */
  lemma GeneratedNameShowsTheDate(year: int, month: nat, day: nat, hour: nat, minute: nat)
    requires month < 100 && day < 100 && hour < 100 && minute < 100
    ensures var name := GenerateName(year, month, day, hour, minute);
            && |name| >= 24
            && var parts := PartsOfGenerated(name);
               && parts.prefix == "partage-" && parts.suffix == ".zip"
               && IsYear(parts.year, year) && Atoi(parts.month) == month && Atoi(parts.day) == day
               && Atoi(parts.hour) == hour && Atoi(parts.minute) == minute
  {
    YearIsWritten(year);
    PaddedIsTheNumber(month);
    PaddedIsTheNumber(day);
    PaddedIsTheNumber(hour);
    PaddedIsTheNumber(minute);
    PartsAreThere(YearPart(year), Pad(month), Pad(day), Pad(hour), Pad(minute));
  }
}
