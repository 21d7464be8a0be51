/** UTF-8: the byte strings that are text (RFC 3629, section 4). */
module Text {
  import opened Bytes

  predicate Continues(c: u8) {
    0x80 <= c <= 0xBF
  }

  /** The bytes of the well-formed character at the front, 0 if there is none. */
  function CharLen(s: Bytes): (n: nat)
    ensures n <= |s|
  {
    if s == [] then 0
    else if s[0] <= 0x7F then 1
    else if 0xC2 <= s[0] <= 0xDF && |s| >= 2 && Continues(s[1]) then 2
    else if 0xE0 <= s[0] <= 0xEF && |s| >= 3 && Continues(s[1]) && Continues(s[2])
            && (s[0] == 0xE0 ==> s[1] >= 0xA0) && (s[0] == 0xED ==> s[1] <= 0x9F) then 3
    else if 0xF0 <= s[0] <= 0xF4 && |s| >= 4 && Continues(s[1]) && Continues(s[2]) && Continues(s[3])
            && (s[0] == 0xF0 ==> s[1] >= 0x90) && (s[0] == 0xF4 ==> s[1] <= 0x8F) then 4
    else 0
  }

  predicate IsUtf8(s: Bytes)
    decreases |s|
  {
    s == [] || (CharLen(s) > 0 && IsUtf8(s[CharLen(s)..]))
  }

  predicate IsAscii(s: Bytes) {
    forall i | 0 <= i < |s| :: s[i] < 0x80
  }

  lemma {:induction false} AsciiIsUtf8(s: Bytes)
    requires IsAscii(s)
    ensures IsUtf8(s)
    decreases |s|
  {
    if s != [] {
      AsciiIsUtf8(s[1..]);
    }
  }

  /** No character reaches across an ASCII byte. */
  lemma CharBeforeAscii(a: Bytes, c: u8, b: Bytes)
    requires a != [] && c < 0x80
    ensures CharLen(a + [c] + b) == CharLen(a)
  {
    var s := a + [c] + b;
    assert s[0] == a[0] && s[|a|] == c;
    assert |a| > 1 ==> s[1] == a[1];
    assert |a| > 2 ==> s[2] == a[2];
    assert |a| > 3 ==> s[3] == a[3];
  }

  /** Around an ASCII byte a string is text exactly when both sides are. */
  lemma {:induction false} Utf8Splits(a: Bytes, c: u8, b: Bytes)
    requires c < 0x80
    ensures IsUtf8(a + [c] + b) <==> IsUtf8(a) && IsUtf8(b)
    decreases |a|
  {
    var s := a + [c] + b;
    if a == [] {
      assert s == [c] + b && s[1..] == b;
    } else {
      CharBeforeAscii(a, c, b);
      var n := CharLen(a);
      if n > 0 {
        assert s[n..] == a[n..] + [c] + b;
        Utf8Splits(a[n..], c, b);
      }
    }
  }

  // --------------------------------------------------------------- the encoding

  /** A Unicode scalar value: any code point but the surrogates. */
  predicate IsScalar(c: nat) {
    c < 0x11_0000 && !(0xD800 <= c <= 0xDFFF)
  }

  /** A character in UTF-8 (RFC 3629, section 3). */
  function EncodeChar(c: nat): (s: Bytes)
    requires IsScalar(c)
    ensures 1 <= |s| <= 4
  {
    if c < 0x80 then [c]
    else if c < 0x800 then [0xC0 + c / 0x40, 0x80 + c % 0x40]
    else if c < 0x1_0000 then [0xE0 + c / 0x1000, 0x80 + c / 0x40 % 0x40, 0x80 + c % 0x40]
    else [0xF0 + c / 0x4_0000, 0x80 + c / 0x1000 % 0x40, 0x80 + c / 0x40 % 0x40, 0x80 + c % 0x40]
  }

  predicate AllScalars(cs: seq<nat>) {
    forall c | c in cs :: IsScalar(c)
  }

  function Encode(cs: seq<nat>): Bytes
    requires AllScalars(cs)
  {
    if cs == [] then [] else EncodeChar(cs[0]) + Encode(cs[1..])
  }

  lemma EncodedIsChar(c: nat, rest: Bytes)
    requires IsScalar(c)
    ensures CharLen(EncodeChar(c) + rest) == |EncodeChar(c)|
  {
    var e := EncodeChar(c);
    EncodedBytes(c);
    hide EncodeChar, IsScalar;
    FrontDecides(e, rest);
  }

  lemma EncodedBytes(c: nat)
    requires IsScalar(c)
    ensures CharLen(EncodeChar(c)) == |EncodeChar(c)|
  {
    if 0x800 <= c < 0x1_0000 {
      assert c / 0x1000 == 0 ==> c / 0x40 % 0x40 >= 0x20;
      assert c / 0x1000 == 0xD ==> c / 0x40 % 0x40 < 0x20 || c >= 0xD800;
    } else if c >= 0x1_0000 {
      assert c / 0x4_0000 == 0 ==> c / 0x1000 % 0x40 >= 0x10;
      assert c / 0x4_0000 == 4 ==> c / 0x1000 % 0x40 < 0x10;
    }
  }

  /** A whole character in front is found whatever follows. */
  lemma FrontDecides(e: Bytes, rest: Bytes)
    requires CharLen(e) == |e| > 0
    ensures CharLen(e + rest) == |e|
  {
    assert forall i | 0 <= i < |e| :: (e + rest)[i] == e[i];
  }

  lemma TwoBytes(a: nat, b: nat)
    requires 2 <= a < 0x20 && b < 0x40
    ensures IsScalar(a * 0x40 + b) && EncodeChar(a * 0x40 + b) == [0xC0 + a, 0x80 + b]
  {
  }

  lemma ThreeBytes(a: nat, b: nat, d: nat)
    requires a < 0x10 && b < 0x40 && d < 0x40 && (a == 0 ==> b >= 0x20) && (a == 0xD ==> b < 0x20)
    ensures var c := a * 0x1000 + b * 0x40 + d; IsScalar(c) && EncodeChar(c) == [0xE0 + a, 0x80 + b, 0x80 + d]
  {
    var c := a * 0x1000 + b * 0x40 + d;
    assert c / 0x40 == a * 0x40 + b;
  }

  lemma FourBytes(a: nat, b: nat, d: nat, e: nat)
    requires a <= 4 && b < 0x40 && d < 0x40 && e < 0x40 && (a == 0 ==> b >= 0x10) && (a == 4 ==> b < 0x10)
    ensures var c := a * 0x4_0000 + b * 0x1000 + d * 0x40 + e;
            IsScalar(c) && EncodeChar(c) == [0xF0 + a, 0x80 + b, 0x80 + d, 0x80 + e]
  {
    var c := a * 0x4_0000 + b * 0x1000 + d * 0x40 + e;
    assert c / 0x40 == a * 0x1000 + b * 0x40 + d;
    assert c / 0x1000 == a * 0x40 + b;
  }

  lemma CharIsEncoded(s: Bytes) returns (c: nat)
    requires CharLen(s) > 0
    ensures IsScalar(c) && s[..CharLen(s)] == EncodeChar(c)
  {
    if CharLen(s) == 1 {
      c := s[0];
    } else if CharLen(s) == 2 {
      var a: nat, b: nat := s[0] as int - 0xC0, s[1] as int - 0x80;
      c := a * 0x40 + b;
      hide EncodeChar;
      TwoBytes(a, b);
    } else if CharLen(s) == 3 {
      var a: nat, b: nat, d: nat := s[0] as int - 0xE0, s[1] as int - 0x80, s[2] as int - 0x80;
      c := a * 0x1000 + b * 0x40 + d;
      hide EncodeChar;
      ThreeBytes(a, b, d);
    } else {
      var a: nat, b: nat := s[0] as int - 0xF0, s[1] as int - 0x80;
      var d: nat, e: nat := s[2] as int - 0x80, s[3] as int - 0x80;
      c := a * 0x4_0000 + b * 0x1000 + d * 0x40 + e;
      hide EncodeChar;
      FourBytes(a, b, d, e);
    }
  }

  lemma {:induction false} EncodedIsUtf8(cs: seq<nat>)
    requires AllScalars(cs)
    ensures IsUtf8(Encode(cs))
  {
    if cs != [] {
      hide CharLen, EncodeChar;
      EncodedIsChar(cs[0], Encode(cs[1..]));
      EncodedIsUtf8(cs[1..]);
      assert Encode(cs)[|EncodeChar(cs[0])|..] == Encode(cs[1..]);
    }
  }

  lemma EncodeFront(c: nat, cs: seq<nat>)
    requires IsScalar(c) && AllScalars(cs)
    ensures AllScalars([c] + cs) && Encode([c] + cs) == EncodeChar(c) + Encode(cs)
  {
    hide IsScalar, EncodeChar;
    assert ([c] + cs)[1..] == cs;
  }

  lemma {:induction false} Utf8IsEncoded(s: Bytes) returns (cs: seq<nat>)
    requires IsUtf8(s)
    ensures AllScalars(cs) && Encode(cs) == s
    decreases |s|
  {
    hide CharLen, EncodeChar, IsScalar, Encode, AllScalars;
    if s == [] {
      cs := [];
      NothingEncoded();
    } else {
      var n := CharLen(s);
      var c := CharIsEncoded(s);
      cs := Utf8IsEncoded(s[n..]);
      EncodeFront(c, cs);
      cs := [c] + cs;
      assert s == s[..n] + s[n..];
    }
  }

  lemma NothingEncoded()
    ensures AllScalars([]) && Encode([]) == []
  {
  }

  /** A byte string is text exactly when it is the encoding of some characters. */
  lemma Utf8Iff(s: Bytes)
    ensures IsUtf8(s) <==> exists cs: seq<nat> :: AllScalars(cs) && Encode(cs) == s
  {
    hide IsUtf8, Encode;
    if IsUtf8(s) {
      var cs := Utf8IsEncoded(s);
    }
    if cs: seq<nat> :| AllScalars(cs) && Encode(cs) == s {
      EncodedIsUtf8(cs);
    }
  }
}
