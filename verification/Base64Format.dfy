/**
 The formats behind the Base64 object, stated without its functions: the alphabet of section 4 of RFC 4648 as one
 string, groups as 24-bit numbers, and the bit patterns of section 3 of RFC 3629.
 */
module Base64Format {
  import opened Base64

  // ---------------------------------------------------------------- the alphabet

  const UPPER_CASE := "ABCDEFGHIJKLMNOPQRSTUVWXYZ"
  const LOWER_CASE := "abcdefghijklmnopqrstuvwxyz"
  const OTHERS := "0123456789+/="

  /** The string of the 65 characters. */
  const KEY_STR := UPPER_CASE + LOWER_CASE + OTHERS

  lemma UpperCaseCodes(i: nat)
    requires i < 26
    ensures UPPER_CASE[i] as int == 65 + i
  {}

  lemma LowerCaseCodes(i: nat)
    requires i < 26
    ensures LOWER_CASE[i] as int == 97 + i
  {}

  lemma DigitCodes(i: nat)
    requires i < 10
    ensures OTHERS[i] as int == 48 + i
  {}

  lemma KeyCharCodes(i: Unit)
    requires i <= PADDING
    ensures KeyChar(i) as int == if i < 26 then 65 + i as int else if i < 52 then 71 + i as int else if i < 62 then i as int - 4
                                 else if i == 62 then 43 else if i == 63 then 47 else 61
  {}

  /** The alphabet is that string, position by position. */
  lemma AlphabetIsKeyStr(i: Unit)
    requires i <= PADDING
    ensures |KEY_STR| == 65 && i as int < 65 && KeyChar(i) as int == KEY_STR[i as int] as int
  {
    KeyCharCodes(i);
    if i < 26 {
      UpperCaseCodes(i as int);
      assert KEY_STR[i as int] == UPPER_CASE[i as int];
    } else if i < 52 {
      LowerCaseCodes(i as int - 26);
      assert KEY_STR[i as int] == LOWER_CASE[i as int - 26];
    } else {
      assert KEY_STR[i as int] == OTHERS[i as int - 52];
      if i < 62 {
        DigitCodes(i as int - 52);
      }
    }
  }

  /** A character is read exactly if it is in the string. */
  lemma OnlyKeyStrIsRead(c: Unit)
    ensures InAlphabet(c) <==> exists i: Unit :: i <= PADDING && KeyChar(i) == c
  {
    if InAlphabet(c) {
      assert KeyChar(IndexOf(c)) == c;
    }
    if i: Unit :| i <= PADDING && KeyChar(i) == c {
      IndexOfKeyChar(i);
    }
  }

  // ---------------------------------------------------------------- groups

  /** Three bytes as one 24-bit number; bytes behind the end are zero. */
  function GroupAt(bytes: Text, i: nat): bv32 {
    GroupOf(CodeAt(bytes, i), CodeAt(bytes, i + 1), CodeAt(bytes, i + 2))
  }

  function GroupOf(b0: Unit, b1: Unit, b2: Unit): bv32 {
    ((b0 as bv32) << 16) | ((b1 as bv32) << 8) | (b2 as bv32)
  }

  /** Its six-bit digits, from the highest on. */
  function Digit(group: bv32, k: nat): Unit
    requires k < 4
  {
    ((group >> (18 - 6 * k)) & 63) as Unit
  }

  /** The character at position `k` of a group: that of the digit, or an equals sign if the digit holds no bit of a byte. */
  function CharacterOf(bytes: Text, i: nat, k: nat): char
    requires k < 4
  {
    if k >= 2 && i + k - 1 >= |bytes| then '='
    else
      DigitIsInRange(GroupAt(bytes, i), k);
      KEY_STR[Digit(GroupAt(bytes, i), k) as int]
  }

  lemma DigitIsInRange(group: bv32, k: nat)
    requires k < 4
    ensures Digit(group, k) < 64
  {}

  lemma FirstDigit(b0: Unit, b1: Unit, b2: Unit)
    requires b0 < 256 && b1 < 256 && b2 < 256
    ensures Sextet0(b0) == Digit(GroupOf(b0, b1, b2), 0)
  {}

  lemma SecondDigit(b0: Unit, b1: Unit, b2: Unit)
    requires b0 < 256 && b1 < 256 && b2 < 256
    ensures Sextet1(b0, b1) == Digit(GroupOf(b0, b1, b2), 1)
  {}

  lemma ThirdDigit(b0: Unit, b1: Unit, b2: Unit)
    requires b0 < 256 && b1 < 256 && b2 < 256
    ensures Sextet2(b1, b2) == Digit(GroupOf(b0, b1, b2), 2)
  {}

  lemma FourthDigit(b0: Unit, b1: Unit, b2: Unit)
    requires b0 < 256 && b1 < 256 && b2 < 256
    ensures Sextet3(b2) == Digit(GroupOf(b0, b1, b2), 3)
  {}

  lemma SextetsAreDigits(bytes: Text)
    requires AreBytes(bytes) && bytes != []
    ensures var (a, h, n, c), group := Sextets(bytes), GroupAt(bytes, 0);
            && a == Digit(group, 0) && h == Digit(group, 1)
            && n == (if |bytes| < 2 then PADDING else Digit(group, 2))
            && c == (if |bytes| < 3 then PADDING else Digit(group, 3))
  {
    var b0, b1, b2 := bytes[0], CodeAt(bytes, 1), CodeAt(bytes, 2);
    FirstDigit(b0, b1, b2);
    SecondDigit(b0, b1, b2);
    ThirdDigit(b0, b1, b2);
    FourthDigit(b0, b1, b2);
  }

  lemma FirstGroupIsWritten(bytes: Text, k: nat)
    requires AreBytes(bytes) && bytes != [] && k < 4
    ensures |Base64Of(bytes)| >= 4 && Base64Of(bytes)[k] as int == CharacterOf(bytes, 0, k) as int
  {
    SextetsAreInRange(bytes);
    SextetsAreDigits(bytes);
    var (a, h, n, c) := Sextets(bytes);
    AlphabetIsKeyStr(if k == 0 then a else if k == 1 then h else if k == 2 then n else c);
  }

  lemma CodesOfTheRest(bytes: Text, i: nat)
    requires |bytes| >= 3
    ensures CodeAt(bytes[3..], i) == CodeAt(bytes, i + 3)
  {}

  lemma CharacterOfTheRest(bytes: Text, i: nat, k: nat)
    requires |bytes| >= 3 && k < 4
    ensures CharacterOf(bytes[3..], i, k) == CharacterOf(bytes, i + 3, k)
  {
    CodesOfTheRest(bytes, i);
    CodesOfTheRest(bytes, i + 1);
    CodesOfTheRest(bytes, i + 2);
  }

  lemma TheRestIsWritten(bytes: Text)
    requires AreBytes(bytes) && |bytes| > 3
    ensures |Base64Of(bytes)| >= 4 && Base64Of(bytes)[4..] == Base64Of(bytes[3..])
  {
    SextetsAreInRange(bytes);
  }

  lemma GroupBehindTheFirst(bytes: Text, g: nat, k: nat)
    requires AreBytes(bytes) && |bytes| > 3 && k < 4
    requires 4 * g + k < |Base64Of(bytes[3..])| && Base64Of(bytes[3..])[4 * g + k] as int == CharacterOf(bytes[3..], 3 * g, k) as int
    ensures 4 * (g + 1) + k < |Base64Of(bytes)| && Base64Of(bytes)[4 * (g + 1) + k] as int == CharacterOf(bytes, 3 * (g + 1), k) as int
  {
    var text, j := Base64Of(bytes), 4 * g + k;
    TheRestIsWritten(bytes);
    CharacterOfTheRest(bytes, 3 * g, k);
    assert text[4..][j] == text[j + 4];
  }

  /** Every group of three bytes, the shorter last one included, is written as the characters of its four digits. */
  lemma {:induction false} EveryGroupIsWritten(bytes: Text, g: nat, k: nat)
    requires AreBytes(bytes) && 3 * g < |bytes| && k < 4
    ensures 4 * g + k < |Base64Of(bytes)| && Base64Of(bytes)[4 * g + k] as int == CharacterOf(bytes, 3 * g, k) as int
    decreases g
  {
    if g == 0 {
      FirstGroupIsWritten(bytes, k);
    } else {
      EveryGroupIsWritten(bytes[3..], g - 1, k);
      GroupBehindTheFirst(bytes, g - 1, k);
    }
  }

  /** The 24-bit number of four positions in the alphabet. */
  function GroupOfDigits(a: Unit, h: Unit, n: Unit, c: Unit): bv32 {
    ((a as bv32) << 18) | ((h as bv32) << 12) | ((n as bv32) << 6) | (c as bv32)
  }

  /** Its bytes, from the highest on. */
  function ByteOf(group: bv32, k: nat): Unit
    requires k < 3
  {
    ((group >> (16 - 8 * k)) & 255) as Unit
  }

  lemma BytesOfTriple(a: Unit, h: Unit, n: Unit, c: Unit)
    requires n < 64 && c < 64
    ensures Triple(a, h, n, c) == [Byte0(a, h), Byte1(h, n), Byte2(n, c)]
    ensures Triple(a, h, n, PADDING) == [Byte0(a, h), Byte1(h, n)]
    ensures Triple(a, h, PADDING, PADDING) == [Byte0(a, h)]
  {}

  /** Four characters are read as the three bytes of their number, or as the first two or the first with padding behind. */
  lemma AGroupIsRead(a: Unit, h: Unit, n: Unit, c: Unit)
    requires a < 64 && h < 64 && n < 64 && c < 64
    ensures var group := GroupOfDigits(a, h, n, c);
            && Triple(a, h, n, c) == [ByteOf(group, 0), ByteOf(group, 1), ByteOf(group, 2)]
            && Triple(a, h, n, PADDING) == [ByteOf(group, 0), ByteOf(group, 1)]
            && Triple(a, h, PADDING, PADDING) == [ByteOf(group, 0)]
  {
    BytesOfTriple(a, h, n, c);
    FirstByte(a, h, n, c);
    SecondByte(a, h, n, c);
    ThirdByte(a, h, n, c);
  }

  lemma FirstByte(a: Unit, h: Unit, n: Unit, c: Unit)
    requires a < 64 && h < 64 && n < 64 && c < 64
    ensures Byte0(a, h) == ByteOf(GroupOfDigits(a, h, n, c), 0)
  {}

  lemma SecondByte(a: Unit, h: Unit, n: Unit, c: Unit)
    requires a < 64 && h < 64 && n < 64 && c < 64
    ensures Byte1(h, n) == ByteOf(GroupOfDigits(a, h, n, c), 1)
  {
    MiddleBits(a as bv32, h as bv32, n as bv32, c as bv32);
    MiddleBitsOfUnits(h, n);
  }

  lemma MiddleBits(a: bv32, h: bv32, n: bv32, c: bv32)
    requires a < 64 && h < 64 && n < 64 && c < 64
    ensures (((a << 18) | (h << 12) | (n << 6) | c) >> 8) & 255 == ((h & 15) << 4) | (n >> 2)
  {}

  lemma MiddleBitsOfUnits(h: Unit, n: Unit)
    requires h < 64 && n < 64
    ensures ((((h as bv32) & 15) << 4) | ((n as bv32) >> 2)) as Unit == Byte1(h, n)
  {}

  lemma ThirdByte(a: Unit, h: Unit, n: Unit, c: Unit)
    requires a < 64 && h < 64 && n < 64 && c < 64
    ensures Byte2(n, c) == ByteOf(GroupOfDigits(a, h, n, c), 2)
  {}

  /** A text in the alphabet is read group by group, each by the positions of its characters in the string. */
  lemma GroupsAreReadInTurn(s: Text, a: Unit, h: Unit, n: Unit, c: Unit)
    requires a <= PADDING && h <= PADDING && n <= PADDING && c <= PADDING
    requires forall k :: 0 <= k < |s| ==> InAlphabet(s[k])
    ensures var text := [KeyChar(a), KeyChar(h), KeyChar(n), KeyChar(c)] + s;
            && (forall k :: 0 <= k < |text| ==> InAlphabet(text[k]))
            && BytesOf(text) == Triple(a, h, n, c) + BytesOf(s)
  {
    IndexOfKeyChar(a);
    IndexOfKeyChar(h);
    IndexOfKeyChar(n);
    IndexOfKeyChar(c);
    assert ([KeyChar(a), KeyChar(h), KeyChar(n), KeyChar(c)] + s)[4..] == s;
  }

  /** The last group may be short: a missing character is read like the first of the alphabet. */
  lemma {:induction false} MissingCharactersAreReadAsA(s: Text)
    requires |s| % 4 != 0 && forall k :: 0 <= k < |s| ==> InAlphabet(s[k])
    ensures (forall k :: 0 <= k < |s + [65]| ==> InAlphabet((s + [65])[k])) && BytesOf(s + [65]) == BytesOf(s)
    decreases |s|
  {
    assert IndexOf(65) == 0;
    if |s| < 4 {
      assert BytesOf([]) == [];
      if |s| == 3 {
        assert (s + [65])[4..] == [];
      }
    } else {
      MissingCharactersAreReadAsA(s[4..]);
      assert (s + [65])[4..] == s[4..] + [65];
    }
  }

  // ---------------------------------------------------------------- UTF-8

  /** One byte up to 7 bits, two bytes 110xxxxx 10xxxxxx up to 11 bits, and three bytes 1110xxxx 10xxxxxx 10xxxxxx. */
  predicate IsUtf8Form(o: Unit, bytes: Text) {
    if o < 0x80 then bytes == [o]
    else if o < 0x800 then |bytes| == 2 && IsTwoByteForm(o, bytes[0], bytes[1])
    else |bytes| == 3 && IsThreeByteForm(o, bytes[0], bytes[1], bytes[2])
  }

  predicate IsTwoByteForm(o: Unit, lead: Unit, last: Unit) {
    lead & 0xFFE0 == 0xC0 && last & 0xFFC0 == 0x80 && ((lead & 0x1F) << 6) | (last & 0x3F) == o
  }

  predicate IsThreeByteForm(o: Unit, lead: Unit, middle: Unit, last: Unit) {
    && lead & 0xFFF0 == 0xE0 && middle & 0xFFC0 == 0x80 && last & 0xFFC0 == 0x80
    && ((lead & 0x0F) << 12) | ((middle & 0x3F) << 6) | (last & 0x3F) == o
  }

  lemma TwoByteForm(o: Unit)
    requires 0x80 <= o < 0x800
    ensures IsTwoByteForm(o, LeadOfTwo(o), LastByte(o))
  {}

  lemma ThreeByteForm(o: Unit)
    requires 0x800 <= o
    ensures IsThreeByteForm(o, LeadOfThree(o), MiddleByte(o), LastByte(o))
  {}

  /** Code units have the bit patterns of UTF-8. */
  lemma UnitsAreInUtf8(o: Unit)
    ensures IsUtf8Form(o, UnitBytes(o))
  {
    if 0x80 <= o < 0x800 {
      TwoByteForm(o);
    } else if 0x800 <= o {
      ThreeByteForm(o);
    }
  }

  /** Bytes with these patterns are read as the code unit, whatever follows them. */
  lemma Utf8IsRead(o: Unit, bytes: Text, rest: Text)
    requires IsUtf8Form(o, bytes)
    ensures bytes == UnitBytes(o) && UnitsOf(bytes + rest) == [o] + UnitsOf(rest)
  {
    if 0x80 <= o < 0x800 {
      TwoByteFormIsUnique(o, bytes[0], bytes[1]);
    } else if 0x800 <= o {
      ThreeByteFormIsUnique(o, bytes[0], bytes[1], bytes[2]);
    }
    assert bytes == UnitBytes(o);
    FirstUnitOfBytes(o, rest);
    assert (bytes + rest)[|bytes|..] == rest;
  }

  lemma TwoByteFormIsUnique(o: Unit, lead: Unit, last: Unit)
    requires IsTwoByteForm(o, lead, last)
    ensures lead == LeadOfTwo(o) && last == LastByte(o)
  {}

  lemma ThreeByteFormIsUnique(o: Unit, lead: Unit, middle: Unit, last: Unit)
    requires IsThreeByteForm(o, lead, middle, last)
    ensures lead == LeadOfThree(o) && middle == MiddleByte(o) && last == LastByte(o)
  {}

  /** The standard's own example of a full group. */
  lemma ManIsTWFu()
    ensures Encoded([77, 97, 110]) == [84, 87, 70, 117]
  {
    var text: Text := [77, 97, 110];
    assert text[1..] == [97, 110] && text[2..] == [110] && text[1..][1..] == [110];
    assert Utf8Of([110]) == [110];
    assert Utf8Of([97, 110]) == [97, 110];
    assert Utf8Of(text) == text;
    assert WithoutCrLf([110]) == [110];
    assert WithoutCrLf([97, 110]) == [97, 110];
    assert WithoutCrLf(text) == text;
    Utf8IsBytes(text);
    assert Base64Of([]) == [];
  }
}
