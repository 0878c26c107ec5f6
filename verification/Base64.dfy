/** The Base64 object of the web pages: text as 16-bit code units, through UTF-8, to Base64 and back. */
module Base64 {
  type Unit = bv16
  type Text = seq<Unit>

  const CR: Unit := 13
  const LF: Unit := 10
  const PADDING: Unit := 64

  // ---------------------------------------------------------------- the alphabet

  /** The character at one of the 65 positions: A to Z, a to z, 0 to 9, plus, slash and, for padding, the equals sign. */
  function KeyChar(i: Unit): Unit
    requires i <= PADDING
  {
    if i < 26 then 65 + i
    else if i < 52 then 97 + (i - 26)
    else if i < 62 then 48 + (i - 52)
    else if i == 62 then 43
    else if i == 63 then 47
    else 61
  }

  predicate InAlphabet(c: Unit) {
    65 <= c <= 90 || 97 <= c <= 122 || 48 <= c <= 57 || c == 43 || c == 47 || c == 61
  }

  function IndexOf(c: Unit): (i: Unit)
    requires InAlphabet(c)
    ensures i <= PADDING && KeyChar(i) == c
  {
    if 65 <= c <= 90 then c - 65
    else if 97 <= c <= 122 then c - 97 + 26
    else if 48 <= c <= 57 then c - 48 + 52
    else if c == 43 then 62
    else if c == 47 then 63
    else 64
  }

  lemma IndexOfKeyChar(i: Unit)
    requires i <= PADDING
    ensures InAlphabet(KeyChar(i)) && IndexOf(KeyChar(i)) == i
  {}

  // ---------------------------------------------------------------- groups of three bytes

  predicate AreBytes(bytes: Text) {
    forall i :: 0 <= i < |bytes| ==> bytes[i] < 256
  }

  /** The code at a position; behind the end it counts as zero in bit operations. */
  function CodeAt(s: Text, i: nat): Unit {
    if i < |s| then s[i] else 0
  }

  function Sextet0(b0: Unit): Unit {
    b0 >> 2
  }

  function Sextet1(b0: Unit, b1: Unit): Unit {
    ((b0 & 3) << 4) | (b1 >> 4)
  }

  function Sextet2(b1: Unit, b2: Unit): Unit {
    ((b1 & 15) << 2) | (b2 >> 6)
  }

  function Sextet3(b2: Unit): Unit {
    b2 & 63
  }

  /** The four positions in the alphabet for the first three bytes. */
  function Sextets(bytes: Text): (Unit, Unit, Unit, Unit)
    requires bytes != []
  {
    var b0, b1, b2 := bytes[0], CodeAt(bytes, 1), CodeAt(bytes, 2);
    (Sextet0(b0),
     Sextet1(b0, b1),
     if |bytes| < 2 then PADDING else Sextet2(b1, b2),
     if |bytes| < 3 then PADDING else Sextet3(b2))
  }

  lemma SextetsAreInRange(bytes: Text)
    requires bytes != [] && AreBytes(bytes)
    ensures var (a, h, n, c) := Sextets(bytes); a < 64 && h < 64 && n <= 64 && c <= 64
    ensures Sextets(bytes).2 == 64 <==> |bytes| < 2
    ensures Sextets(bytes).3 == 64 <==> |bytes| < 3
  {
    var b0, b1, b2 := bytes[0], CodeAt(bytes, 1), CodeAt(bytes, 2);
    assert b0 < 256 && b1 < 256 && b2 < 256;
    SextetBounds(b0, b1, b2);
  }

  lemma SextetBounds(b0: Unit, b1: Unit, b2: Unit)
    requires b0 < 256 && b1 < 256 && b2 < 256
    ensures Sextet0(b0) < 64 && Sextet1(b0, b1) < 64 && Sextet2(b1, b2) < 64 && Sextet3(b2) < 64
  {}

  /** The alphabet positions are the four six-bit digits of the 24-bit group. */
  lemma SextetsAreTheGroup(b0: Unit, b1: Unit, b2: Unit)
    requires b0 < 256 && b1 < 256 && b2 < 256
    ensures var (a, h, n, c) := Sextets([b0, b1, b2]);
            ((a as bv32) << 18) | ((h as bv32) << 12) | ((n as bv32) << 6) | (c as bv32)
            == ((b0 as bv32) << 16) | ((b1 as bv32) << 8) | (b2 as bv32)
  {}

  /** A shorter last group is filled up with zero bits, and padding stands for the missing characters. */
  lemma ShortGroups(b0: Unit, b1: Unit)
    ensures Sextets([b0]) == (Sextets([b0, 0, 0]).0, Sextets([b0, 0, 0]).1, PADDING, PADDING)
    ensures Sextets([b0, b1]) == (Sextets([b0, b1, 0]).0, Sextets([b0, b1, 0]).1, Sextets([b0, b1, 0]).2, PADDING)
  {}

  function Base64Of(bytes: Text): Text
    requires AreBytes(bytes)
    decreases |bytes|
  {
    if bytes == [] then []
    else
      SextetsAreInRange(bytes);
      var (a, h, n, c) := Sextets(bytes);
      [KeyChar(a), KeyChar(h), KeyChar(n), KeyChar(c)] + Base64Of(if |bytes| < 3 then [] else bytes[3..])
  }

  // ---------------------------------------------------------------- and back

  /** The position of a character in the alphabet; behind the end of the text it is 0. */
  function IndexAt(s: Text, i: nat): Unit
    requires forall k :: 0 <= k < |s| ==> InAlphabet(s[k])
  {
    if i < |s| then IndexOf(s[i]) else 0
  }

  function Byte0(a: Unit, h: Unit): Unit {
    (a << 2) | (h >> 4)
  }

  function Byte1(h: Unit, n: Unit): Unit {
    ((h & 15) << 4) | (n >> 2)
  }

  function Byte2(n: Unit, c: Unit): Unit {
    ((n & 3) << 6) | c
  }

  /** One to three bytes from four positions in the alphabet. */
  function Triple(a: Unit, h: Unit, n: Unit, c: Unit): Text {
    [Byte0(a, h)] + (if n != PADDING then [Byte1(h, n)] else []) + (if c != PADDING then [Byte2(n, c)] else [])
  }

  function BytesOf(s: Text): Text
    requires forall k :: 0 <= k < |s| ==> InAlphabet(s[k])
    decreases |s|
  {
    if s == [] then []
    else Triple(IndexAt(s, 0), IndexAt(s, 1), IndexAt(s, 2), IndexAt(s, 3)) + BytesOf(if |s| < 4 then [] else s[4..])
  }

  /** The text without characters that are not in the alphabet. */
  function Filtered(s: Text): (r: Text)
    ensures forall k :: 0 <= k < |r| ==> InAlphabet(r[k])
  {
    if s == [] then []
    else if InAlphabet(s[0]) then [s[0]] + Filtered(s[1..])
    else Filtered(s[1..])
  }

  lemma {:induction false} FilteredKeepsAlphabet(s: Text)
    requires forall k :: 0 <= k < |s| ==> InAlphabet(s[k])
    ensures Filtered(s) == s
  {
    if s == [] {
    } else {
      FilteredKeepsAlphabet(s[1..]);
    }
  }

  lemma {:induction false} Base64IsInAlphabet(bytes: Text)
    requires AreBytes(bytes)
    ensures forall k :: 0 <= k < |Base64Of(bytes)| ==> InAlphabet(Base64Of(bytes)[k])
    ensures |Base64Of(bytes)| == (|bytes| + 2) / 3 * 4
    decreases |bytes|
  {
    if bytes == [] {
    } else {
      SextetsAreInRange(bytes);
      Base64IsInAlphabet(if |bytes| < 3 then [] else bytes[3..]);
      var (a, h, n, c) := Sextets(bytes);
      IndexOfKeyChar(a);
      IndexOfKeyChar(h);
      IndexOfKeyChar(n);
      IndexOfKeyChar(c);
    }
  }

  lemma TripleUndoesSextets(b0: Unit, b1: Unit, b2: Unit)
    requires b0 < 256 && b1 < 256 && b2 < 256
    ensures Byte0(Sextet0(b0), Sextet1(b0, b1)) == b0
    ensures Byte1(Sextet1(b0, b1), Sextet2(b1, b2)) == b1
    ensures Byte2(Sextet2(b1, b2), Sextet3(b2)) == b2
  {}

  lemma TripleOfGroup(bytes: Text)
    requires bytes != [] && AreBytes(bytes)
    ensures var (a, h, n, c) := Sextets(bytes); Triple(a, h, n, c) == if |bytes| < 3 then bytes else bytes[..3]
  {
    var b0, b1, b2 := bytes[0], CodeAt(bytes, 1), CodeAt(bytes, 2);
    SextetsAreInRange(bytes);
    TripleUndoesSextets(b0, b1, b2);
  }

  lemma {:induction false} BytesOfUndoesBase64Of(bytes: Text)
    requires AreBytes(bytes)
    ensures (forall k :: 0 <= k < |Base64Of(bytes)| ==> InAlphabet(Base64Of(bytes)[k])) && BytesOf(Base64Of(bytes)) == bytes
    decreases |bytes|
  {
    Base64IsInAlphabet(bytes);
    if bytes == [] {
    } else {
      var rest := if |bytes| < 3 then [] else bytes[3..];
      BytesOfUndoesBase64Of(rest);
      TripleOfGroup(bytes);
      SextetsAreInRange(bytes);
      var (a, h, n, c) := Sextets(bytes);
      IndexOfKeyChar(a);
      IndexOfKeyChar(h);
      IndexOfKeyChar(n);
      IndexOfKeyChar(c);
      assert Base64Of(bytes)[4..] == Base64Of(rest);
    }
  }

  // ---------------------------------------------------------------- UTF-8

  predicate HasCrLf(s: Text) {
    |s| >= 2 && ((s[0] == CR && s[1] == LF) || HasCrLf(s[1..]))
  }

  /** The text with every CR LF replaced by LF. */
  function WithoutCrLf(s: Text): Text {
    if s == [] then []
    else if |s| >= 2 && s[0] == CR && s[1] == LF then [LF] + WithoutCrLf(s[2..])
    else [s[0]] + WithoutCrLf(s[1..])
  }

  function LeadOfTwo(o: Unit): Unit {
    (o >> 6) | 192
  }

  function LeadOfThree(o: Unit): Unit {
    (o >> 12) | 224
  }

  function MiddleByte(o: Unit): Unit {
    ((o >> 6) & 63) | 128
  }

  function LastByte(o: Unit): Unit {
    (o & 63) | 128
  }

  /** The one to three bytes of a code unit. */
  function UnitBytes(o: Unit): Text {
    if o < 128 then [o]
    else if o < 2048 then [LeadOfTwo(o), LastByte(o)]
    else [LeadOfThree(o), MiddleByte(o), LastByte(o)]
  }

  function Utf8Of(s: Text): Text {
    if s == [] then [] else UnitBytes(s[0]) + Utf8Of(s[1..])
  }

  function UnitOfTwo(c: Unit, c2: Unit): Unit {
    ((c & 31) << 6) | (c2 & 63)
  }

  function UnitOfThree(c: Unit, c2: Unit, c3: Unit): Unit {
    ((c & 15) << 12) | ((c2 & 63) << 6) | (c3 & 63)
  }

  /** The code unit that starts with the byte `c`, and how many bytes it takes; `c2` and `c3` are the next two. */
  function Assembled(c: Unit, c2: Unit, c3: Unit): (Unit, nat) {
    if c < 128 then (c, 1)
    else if 191 < c < 224 then (UnitOfTwo(c, c2), 2)
    else (UnitOfThree(c, c2, c3), 3)
  }

  function FirstUnit(bytes: Text): (Unit, nat)
    requires bytes != []
  {
    Assembled(bytes[0], CodeAt(bytes, 1), CodeAt(bytes, 2))
  }

  function UnitsOf(bytes: Text): Text
    decreases |bytes|
  {
    if bytes == [] then []
    else
      var (u, n) := FirstUnit(bytes);
      [u] + UnitsOf(if |bytes| < n then [] else bytes[n..])
  }

  lemma TwoBytes(o: Unit)
    requires 128 <= o < 2048
    ensures 191 < LeadOfTwo(o) < 224 && LastByte(o) < 256 && UnitOfTwo(LeadOfTwo(o), LastByte(o)) == o
  {}

  lemma ThreeBytes(o: Unit)
    requires 2048 <= o
    ensures 224 <= LeadOfThree(o) < 256 && MiddleByte(o) < 256 && LastByte(o) < 256
    ensures UnitOfThree(LeadOfThree(o), MiddleByte(o), LastByte(o)) == o
  {}

  lemma AssembledUnit(o: Unit, c3: Unit)
    ensures 128 <= o < 2048 ==> Assembled(LeadOfTwo(o), LastByte(o), c3) == (o, 2)
    ensures o >= 2048 ==> Assembled(LeadOfThree(o), MiddleByte(o), LastByte(o)) == (o, 3)
    ensures AreBytes(UnitBytes(o))
  {
    if 128 <= o < 2048 {
      TwoBytes(o);
    } else if o >= 2048 {
      ThreeBytes(o);
    }
  }

  lemma FirstUnitOfBytes(o: Unit, rest: Text)
    ensures FirstUnit(UnitBytes(o) + rest) == (o, |UnitBytes(o)|)
  {
    AssembledUnit(o, CodeAt(UnitBytes(o) + rest, 2));
  }

  lemma {:induction false} Utf8IsBytes(s: Text)
    ensures AreBytes(Utf8Of(s))
  {
    if s == [] {
    } else {
      AssembledUnit(s[0], 0);
      Utf8IsBytes(s[1..]);
    }
  }

  lemma {:induction false} UnitsOfUndoesUtf8Of(s: Text)
    ensures UnitsOf(Utf8Of(s)) == s
  {
    if s == [] {
    } else {
      UnitsOfUndoesUtf8Of(s[1..]);
      FirstUnitOfBytes(s[0], Utf8Of(s[1..]));
      assert Utf8Of(s)[|UnitBytes(s[0])|..] == Utf8Of(s[1..]);
    }
  }

  // ---------------------------------------------------------------- the two directions

  function Encoded(s: Text): Text {
    Utf8IsBytes(WithoutCrLf(s));
    Base64Of(Utf8Of(WithoutCrLf(s)))
  }

  function Decoded(s: Text): Text {
    UnitsOf(BytesOf(Filtered(s)))
  }

  /** Decoding an encoded text gives the text back, with LF for CR LF. */
  lemma DecodeEncode(s: Text)
    ensures Decoded(Encoded(s)) == WithoutCrLf(s)
  {
    var bytes := Utf8Of(WithoutCrLf(s));
    Utf8IsBytes(WithoutCrLf(s));
    BytesOfUndoesBase64Of(bytes);
    FilteredKeepsAlphabet(Base64Of(bytes));
    UnitsOfUndoesUtf8Of(WithoutCrLf(s));
  }

  /** The text itself comes back exactly if it holds no CR LF. */
  lemma DecodeEncodeIsIdentity(s: Text)
    ensures Decoded(Encoded(s)) == s <==> !HasCrLf(s)
  {
    DecodeEncode(s);
    CrLfChangesText(s);
  }

  lemma {:induction false} CrLfChangesText(s: Text)
    ensures |WithoutCrLf(s)| <= |s|
    ensures WithoutCrLf(s) == s <==> !HasCrLf(s)
  {
    if s == [] {
    } else if |s| >= 2 && s[0] == CR && s[1] == LF {
      CrLfChangesText(s[2..]);
    } else {
      CrLfChangesText(s[1..]);
      assert s == [s[0]] + s[1..];
      if WithoutCrLf(s) == s {
        assert WithoutCrLf(s)[1..] == s[1..];
      }
    }
  }

  // ---------------------------------------------------------------- the loops of the page

  /** The part of the text that starts at a position, which may lie behind its end. */
  function Rest(s: Text, i: nat): Text {
    if i < |s| then s[i..] else []
  }

  lemma Utf8Step(s: Text, e: nat, t: Text)
    requires e < |s| && Utf8Of(s) == t + Utf8Of(Rest(s, e))
    ensures Utf8Of(s) == (t + UnitBytes(s[e])) + Utf8Of(Rest(s, e + 1))
  {
    assert s[e..][1..] == Rest(s, e + 1);
  }

  method Utf8Encode(r: Text) returns (t: Text)
    ensures t == Utf8Of(WithoutCrLf(r))
  {
    var s := WithoutCrLf(r);
    t := [];
    for e := 0 to |s|
      invariant Utf8Of(s) == t + Utf8Of(Rest(s, e))
    {
      var o := s[e];
      Utf8Step(s, e, t);
      if o < 128 {
        t := t + [o];
      } else if 127 < o < 2048 {
        t := t + [LeadOfTwo(o), LastByte(o)];
      } else {
        t := t + [LeadOfThree(o), MiddleByte(o), LastByte(o)];
      }
    }
  }

  ghost function FourChars(group: Text): Text
    requires group != [] && AreBytes(group)
  {
    SextetsAreInRange(group);
    var (a, h, n, c) := Sextets(group);
    [KeyChar(a), KeyChar(h), KeyChar(n), KeyChar(c)]
  }

  lemma EncodeStep(r: Text, i: nat, d: Text)
    requires i < |r| && AreBytes(r) && AreBytes(Rest(r, i)) && AreBytes(Rest(r, i + 3))
    requires Base64Of(r) == d + Base64Of(Rest(r, i))
    ensures Base64Of(r) == (d + FourChars(Rest(r, i))) + Base64Of(Rest(r, i + 3))
  {
    var group := Rest(r, i);
    assert Rest(r, i + 3) == if |group| < 3 then [] else group[3..];
    var four, rest := FourChars(group), Base64Of(Rest(r, i + 3));
    assert Base64Of(group) == four + rest;
    assert d + (four + rest) == (d + four) + rest;
  }

  lemma LaterBytes(r: Text, i: nat)
    requires AreBytes(Rest(r, i))
    ensures AreBytes(Rest(r, i + 3))
  {
    var bytes, later := Rest(r, i), Rest(r, i + 3);
    forall k | 0 <= k < |later|
      ensures later[k] < 256
    {
      assert later[k] == bytes[k + 3];
    }
  }

  lemma FourCharsAre(group: Text, a: Unit, h: Unit, n: Unit, c: Unit)
    requires group != [] && AreBytes(group) && (a, h, n, c) == Sextets(group)
    ensures a <= 64 && h <= 64 && n <= 64 && c <= 64
    ensures FourChars(group) == [KeyChar(a), KeyChar(h), KeyChar(n), KeyChar(c)]
  {
    SextetsAreInRange(group);
  }

  method Encode(text: Text) returns (d: Text)
    ensures d == Encoded(text)
  {
    var r := Utf8Encode(text);
    Utf8IsBytes(WithoutCrLf(text));
    d := [];
    var i := 0;
    while i < |r|
      invariant AreBytes(Rest(r, i)) && Base64Of(r) == d + Base64Of(Rest(r, i))
    {
      LaterBytes(r, i);
      EncodeStep(r, i, d);
      var a, h, n, c := SextetsAt(r, i);
      FourCharsAre(Rest(r, i), a, h, n, c);
      d := d + [KeyChar(a), KeyChar(h), KeyChar(n), KeyChar(c)];
      i := i + 3;
    }
  }

  method SextetsAt(r: Text, i: nat) returns (a: Unit, h: Unit, n: Unit, c: Unit)
    requires i < |r|
    ensures (a, h, n, c) == Sextets(Rest(r, i))
  {
    var b0, b1, b2 := r[i], CodeAt(r, i + 1), CodeAt(r, i + 2);
    ghost var group := Rest(r, i);
    assert group[0] == b0 && CodeAt(group, 1) == b1 && CodeAt(group, 2) == b2 && |group| == |r| - i;
    a, h, n, c := Sextet0(b0), Sextet1(b0, b1), Sextet2(b1, b2), Sextet3(b2);
    if i + 1 >= |r| {
      n, c := PADDING, PADDING;
    } else if i + 2 >= |r| {
      c := PADDING;
    }
  }

  lemma NextUnit(bytes: Text, e: nat, t: Text, u: Unit, n: nat)
    requires e < |bytes| && UnitsOf(bytes) == t + UnitsOf(Rest(bytes, e)) && (u, n) == FirstUnit(bytes[e..])
    ensures UnitsOf(bytes) == (t + [u]) + UnitsOf(Rest(bytes, e + n))
  {
    var tail := bytes[e..];
    assert Rest(bytes, e + n) == if |tail| < n then [] else tail[n..];
    assert t + ([u] + UnitsOf(Rest(bytes, e + n))) == (t + [u]) + UnitsOf(Rest(bytes, e + n));
  }

  lemma Utf8DecodeStep(bytes: Text, e: nat, t: Text, c: Unit)
    requires e < |bytes| && c == bytes[e] && UnitsOf(bytes) == t + UnitsOf(Rest(bytes, e))
    ensures c < 128 ==> UnitsOf(bytes) == (t + [c]) + UnitsOf(Rest(bytes, e + 1))
    ensures 191 < c < 224 ==>
              UnitsOf(bytes) == (t + [UnitOfTwo(c, CodeAt(bytes, e + 1))]) + UnitsOf(Rest(bytes, e + 2))
    ensures 128 <= c <= 191 || 224 <= c ==>
              UnitsOf(bytes) == (t + [UnitOfThree(c, CodeAt(bytes, e + 1), CodeAt(bytes, e + 2))]) + UnitsOf(Rest(bytes, e + 3))
  {
    var (u, n) := FirstUnit(bytes[e..]);
    NextUnit(bytes, e, t, u, n);
  }

  method Utf8Decode(bytes: Text) returns (t: Text)
    ensures t == UnitsOf(bytes)
  {
    t := [];
    var e := 0;
    while e < |bytes|
      invariant UnitsOf(bytes) == t + UnitsOf(Rest(bytes, e))
    {
      var c := bytes[e];
      Utf8DecodeStep(bytes, e, t, c);
      if c < 128 {
        t := t + [c];
        e := e + 1;
      } else if 191 < c < 224 {
        var c2 := CodeAt(bytes, e + 1);
        t := t + [UnitOfTwo(c, c2)];
        e := e + 2;
      } else {
        var c2, c3 := CodeAt(bytes, e + 1), CodeAt(bytes, e + 2);
        t := t + [UnitOfThree(c, c2, c3)];
        e := e + 3;
      }
    }
  }

  lemma DecodeStep(r: Text, d: nat, bytes: Text)
    requires d < |r| && forall k :: 0 <= k < |r| ==> InAlphabet(r[k])
    requires BytesOf(r) == bytes + BytesOf(Rest(r, d))
    ensures BytesOf(r)
            == (bytes + Triple(IndexAt(r, d), IndexAt(r, d + 1), IndexAt(r, d + 2), IndexAt(r, d + 3))) + BytesOf(Rest(r, d + 4))
  {
    var four, rest := Triple(IndexAt(r, d), IndexAt(r, d + 1), IndexAt(r, d + 2), IndexAt(r, d + 3)), BytesOf(Rest(r, d + 4));
    FirstTriple(r, d);
    assert bytes + (four + rest) == (bytes + four) + rest;
  }

  lemma FirstTriple(r: Text, d: nat)
    requires d < |r| && forall k :: 0 <= k < |r| ==> InAlphabet(r[k])
    ensures BytesOf(Rest(r, d))
            == Triple(IndexAt(r, d), IndexAt(r, d + 1), IndexAt(r, d + 2), IndexAt(r, d + 3)) + BytesOf(Rest(r, d + 4))
  {
    var tail := r[d..];
    assert Rest(r, d + 4) == if |tail| < 4 then [] else tail[4..];
    assert IndexAt(tail, 1) == IndexAt(r, d + 1) && IndexAt(tail, 2) == IndexAt(r, d + 2) && IndexAt(tail, 3) == IndexAt(r, d + 3);
  }

  method Decode(text: Text) returns (t: Text)
    ensures t == Decoded(text)
  {
    var r := Filtered(text);
    var bytes: Text := [];
    var d := 0;
    while d < |r|
      invariant BytesOf(r) == bytes + BytesOf(Rest(r, d))
    {
      DecodeStep(r, d, bytes);
      var triple := TripleAt(r, d);
      bytes := bytes + triple;
      d := d + 4;
    }
    assert bytes == BytesOf(r);
    t := Utf8Decode(bytes);
  }

  method TripleAt(r: Text, d: nat) returns (triple: Text)
    requires forall k :: 0 <= k < |r| ==> InAlphabet(r[k])
    ensures triple == Triple(IndexAt(r, d), IndexAt(r, d + 1), IndexAt(r, d + 2), IndexAt(r, d + 3))
  {
    var a, h, n, c := IndexAt(r, d), IndexAt(r, d + 1), IndexAt(r, d + 2), IndexAt(r, d + 3);
    triple := [Byte0(a, h)];
    if n != PADDING {
      triple := triple + [Byte1(h, n)];
    }
    if c != PADDING {
      triple := triple + [Byte2(n, c)];
    }
  }
}
