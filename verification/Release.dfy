/** The operator's release: its two lines, and the check of one. */
module Release {
  import opened Bytes
  import opened Envelope

  const MAX_RECORD := 256
  const MAX_SIG := 80
  const LF: u8 := 10
  const CR: u8 := 13
  const DEVICE_PREFIX: Bytes := Ascii("device ")
  const EPOCH_PREFIX: Bytes := Ascii("epoch ")

  // ------------------------------------------------------------------ decimal

  function Pow10(n: nat): (p: nat)
    ensures p > 0
  {
    if n == 0 then 1 else 10 * Pow10(n - 1)
  }

  predicate IsDigit(c: u8) {
    48 <= c <= 57
  }

  predicate AllDigits(s: Bytes) {
    forall c | c in s :: IsDigit(c)
  }

  /** `u64::to_string`. */
  function Decimal(v: nat): (s: Bytes)
    ensures s != [] && AllDigits(s)
  {
    if v < 10 then [48 + v] else Decimal(v / 10) + [48 + v % 10]
  }

  /** The value of a digit string, leading zeros and all. */
  function DigitsValue(s: Bytes): nat
    requires AllDigits(s)
  {
    if s == [] then 0 else
      assert IsDigit(s[|s| - 1]);
      10 * DigitsValue(s[..|s| - 1]) + (s[|s| - 1] as int - 48)
  }

  /** `str::parse::<u64>`: an optional plus sign, at least one digit, no overflow. */
  function ParseU64(s: Bytes): Option<u64> {
    var digits := if s != [] && s[0] == 43 then s[1..] else s;
    if digits == [] || !AllDigits(digits) || DigitsValue(digits) > U64_MAX then None else Some(DigitsValue(digits))
  }

  /** Digits, at least one, perhaps after a plus sign, of a value that fits 64 bits. */
  lemma ParseU64Iff(s: Bytes, v: u64)
    ensures ParseU64(s) == Some(v) <==>
            exists digits: Bytes :: digits != [] && (s == digits || s == [43] + digits)
                                    && AllDigits(digits) && DigitsValue(digits) == v
  {
    hide DigitsValue;
    if digits: Bytes :|
      digits != [] && (s == digits || s == [43] + digits) && AllDigits(digits) && DigitsValue(digits) == v
    {
      assert IsDigit(digits[0]);
      assert s == [43] + digits ==> s[1..] == digits;
    }
    if ParseU64(s) == Some(v) {
      var digits := if s[0] == 43 then s[1..] else s;
      assert s[0] == 43 ==> s == [43] + digits;
    }
  }

  lemma {:induction false} DecimalValue(v: nat)
    ensures DigitsValue(Decimal(v)) == v
  {
    if v >= 10 {
      DecimalValue(v / 10);
      assert Decimal(v)[..|Decimal(v)| - 1] == Decimal(v / 10);
    }
  }

  lemma {:induction false} DecimalLength(v: nat, n: nat)
    requires n >= 1 && v < Pow10(n)
    ensures |Decimal(v)| <= n
  {
    if v >= 10 {
      DecimalLength(v / 10, n - 1);
    }
  }

  lemma ParseDecimal(v: u64)
    ensures ParseU64(Decimal(v)) == Some(v)
  {
    DecimalValue(v);
    assert IsDigit(Decimal(v)[0]);
  }

  /** At least `width` digits, zeros in front. */
  function Padded(v: nat, width: nat): (s: Bytes)
    decreases width
  {
    if |Decimal(v)| >= width then Decimal(v) else [48] + Padded(v, width - 1)
  }

  lemma {:induction false} ZeroInFront(s: Bytes)
    requires AllDigits(s)
    ensures AllDigits([48] + s) && DigitsValue([48] + s) == DigitsValue(s)
  {
    var t: Bytes := [48] + s;
    assert forall c | c in t :: c == 48 || c in s;
    if s != [] {
      assert t[..|t| - 1] == [48] + s[..|s| - 1];
      ZeroInFront(s[..|s| - 1]);
    }
  }

  /** Padding keeps the value. */
  lemma {:induction false} PaddedValue(v: nat, width: nat)
    ensures AllDigits(Padded(v, width)) && DigitsValue(Padded(v, width)) == v && |Padded(v, width)| >= width
    decreases width
  {
    if |Decimal(v)| >= width {
      DecimalValue(v);
    } else {
      PaddedValue(v, width - 1);
      ZeroInFront(Padded(v, width - 1));
    }
  }

  lemma {:induction false} PaddedWidth(v: nat, width: nat)
    requires |Decimal(v)| <= width
    ensures |Padded(v, width)| == width
    decreases width
  {
    if |Decimal(v)| < width {
      PaddedWidth(v, width - 1);
    }
  }

  // ------------------------------------------------------------- record

  datatype ReleaseRecord = ReleaseRecord(deviceId: Bytes, epoch: u64)

  predicate IsGraphic(c: u8) {
    0x21 <= c <= 0x7E
  }

  predicate ValidId(id: Bytes) {
    0 < |id| <= DEVICE_ID_LEN && forall c | c in id :: IsGraphic(c)
  }

  /** One to sixteen printable characters that are no space: what the sixteen bytes of a message hold whole. */
  lemma ValidIdIff(id: Bytes)
    ensures ValidId(id) <==> 1 <= |id| <= 16 && forall i | 0 <= i < |id| :: 33 <= id[i] <= 126
    ensures ValidId(id) ==> PadId(id)[..|id|] == id && forall i | |id| <= i < 16 :: PadId(id)[i] == 0
  {
    assert forall i | 0 <= i < |id| :: id[i] in id;
    PadIdExact(id, id);
  }

  /** `str::split` on one byte: the pieces between its occurrences. */
  function SplitOn(s: Bytes, sep: u8): (lines: seq<Bytes>)
    ensures lines != []
  {
    if s == [] then [[]] else
      var rest := SplitOn(s[1..], sep);
      if s[0] == sep then [[]] + rest else [[s[0]] + rest[0]] + rest[1..]
  }

  function StripPrefix(s: Bytes, prefix: Bytes): Option<Bytes> {
    if prefix <= s then Some(s[|prefix|..]) else None
  }

  /** ASCII without carriage returns; anything that is not UTF-8 fails this too. */
  predicate Plain(s: Bytes) {
    forall i | 0 <= i < |s| :: s[i] < 0x80 && s[i] != CR
  }

  function ParseRelease(record: Bytes): Option<ReleaseRecord> {
    if |record| > MAX_RECORD || !Plain(record) then None
    else if record == [] || record[|record| - 1] != LF then None
    else
      var lines := SplitOn(record[..|record| - 1], LF);
      if |lines| != 2 then None else
        var id :- StripPrefix(lines[0], DEVICE_PREFIX);
        if !ValidId(id) then None else
          var n :- StripPrefix(lines[1], EPOCH_PREFIX);
          var epoch :- ParseU64(n);
          if Decimal(epoch) != n || epoch % 2 != 0 then None else Some(ReleaseRecord(id, epoch))
  }

  function PrintRelease(r: ReleaseRecord): Bytes {
    DEVICE_PREFIX + r.deviceId + [LF] + EPOCH_PREFIX + Decimal(r.epoch) + [LF]
  }

  lemma {:induction false} NoSeparator(s: Bytes, sep: u8)
    requires sep !in s
    ensures SplitOn(s, sep) == [s]
  {
    if s != [] {
      NoSeparator(s[1..], sep);
      assert [s[0]] + s[1..] == s;
    }
  }

  lemma {:induction false} FirstPiece(a: Bytes, rest: Bytes, sep: u8)
    requires sep !in a
    ensures SplitOn(a + [sep] + rest, sep) == [a] + SplitOn(rest, sep)
  {
    var s := a + [sep] + rest;
    if a == [] {
      assert s == [sep] + rest && s[1..] == rest;
    } else {
      assert s[1..] == a[1..] + [sep] + rest;
      FirstPiece(a[1..], rest, sep);
      assert a == [a[0]] + a[1..];
      assert ([a[1..]] + SplitOn(rest, sep))[1..] == SplitOn(rest, sep);
    }
  }

  lemma {:induction false} OneSeparator(a: Bytes, b: Bytes, sep: u8)
    requires sep !in a && sep !in b
    ensures SplitOn(a + [sep] + b, sep) == [a, b]
  {
    var s := a + [sep] + b;
    if a == [] {
      assert s == [sep] + b && s[1..] == b;
      NoSeparator(b, sep);
    } else {
      assert s[1..] == a[1..] + [sep] + b;
      OneSeparator(a[1..], b, sep);
      assert [a[0]] + a[1..] == a;
    }
  }

  function Join(lines: seq<Bytes>, sep: u8): Bytes {
    if lines == [] then [] else if |lines| == 1 then lines[0] else lines[0] + [sep] + Join(lines[1..], sep)
  }

  lemma {:induction false} SplitJoins(s: Bytes, sep: u8)
    ensures Join(SplitOn(s, sep), sep) == s
  {
    if s != [] {
      SplitJoins(s[1..], sep);
      var rest := SplitOn(s[1..], sep);
      if s[0] == sep {
        assert ([[]] + rest)[1..] == rest;
      } else {
        var lines := [[s[0]] + rest[0]] + rest[1..];
        assert lines[1..] == rest[1..];
        var tail := Join(rest[1..], sep);
        assert |rest| > 1 ==> ([s[0]] + rest[0]) + [sep] + tail == [s[0]] + (rest[0] + [sep] + tail);
      }
    }
  }

  lemma ReleasePrints(record: Bytes, r: ReleaseRecord)
    requires ParseRelease(record) == Some(r)
    ensures ValidId(r.deviceId) && r.epoch % 2 == 0 && record == PrintRelease(r)
  {
    var body := record[..|record| - 1];
    var lines := SplitOn(body, LF);
    SplitJoins(body, LF);
    assert lines == [lines[0], lines[1]];
    assert lines[1..] == [lines[1]];
    assert lines[0] == DEVICE_PREFIX + r.deviceId && lines[1] == EPOCH_PREFIX + Decimal(r.epoch);
    assert record == body + [LF];
  }

  lemma PrintedLines(r: ReleaseRecord)
    requires ValidId(r.deviceId)
    ensures var record := PrintRelease(r);
            SplitOn(record[..|record| - 1], LF) == [DEVICE_PREFIX + r.deviceId, EPOCH_PREFIX + Decimal(r.epoch)]
  {
    var record := PrintRelease(r);
    var first, second := DEVICE_PREFIX + r.deviceId, EPOCH_PREFIX + Decimal(r.epoch);
    assert record[..|record| - 1] == first + [LF] + second;
    OneSeparator(first, second, LF);
  }

  lemma PrintedIsPlain(r: ReleaseRecord)
    requires ValidId(r.deviceId)
    ensures Plain(PrintRelease(r))
  {
    PiecesArePlain(r.deviceId, Decimal(r.epoch));
    PlainConcat(DEVICE_PREFIX, r.deviceId, [LF], EPOCH_PREFIX, Decimal(r.epoch), [LF]);
  }

  lemma PiecesArePlain(id: Bytes, n: Bytes)
    requires ValidId(id) && AllDigits(n)
    ensures Plain(DEVICE_PREFIX) && Plain(EPOCH_PREFIX) && Plain(id) && Plain(n)
  {
    forall i | 0 <= i < |id| ensures IsGraphic(id[i]) {
      assert id[i] in id;
    }
    forall i | 0 <= i < |n| ensures IsDigit(n[i]) {
      assert n[i] in n;
    }
  }

  lemma PlainConcat(a: Bytes, b: Bytes, c: Bytes, d: Bytes, e: Bytes, f: Bytes)
    requires Plain(a) && Plain(b) && Plain(c) && Plain(d) && Plain(e) && Plain(f)
    ensures Plain(a + b + c + d + e + f)
  {
    assert Plain(a + b);
    assert Plain(a + b + c);
    assert Plain(a + b + c + d);
    assert Plain(a + b + c + d + e);
  }

  lemma PrintedLength(r: ReleaseRecord)
    requires ValidId(r.deviceId)
    ensures |PrintRelease(r)| <= MAX_RECORD
  {
    assert Pow10(5) == 10_0000;
    assert Pow10(10) == 100_0000_0000;
    assert Pow10(15) == 1000_0000_0000_0000;
    assert Pow10(20) == 1_0000_0000_0000_0000_0000;
    DecimalLength(r.epoch, 20);
  }

  lemma ReleaseParses(r: ReleaseRecord)
    requires ValidId(r.deviceId) && r.epoch % 2 == 0
    ensures ParseRelease(PrintRelease(r)) == Some(r)
  {
    PrintedLines(r);
    PrintedIsPlain(r);
    PrintedLength(r);
    ParseDecimal(r.epoch);
    var first, second := DEVICE_PREFIX + r.deviceId, EPOCH_PREFIX + Decimal(r.epoch);
    assert first[|DEVICE_PREFIX|..] == r.deviceId && second[|EPOCH_PREFIX|..] == Decimal(r.epoch);
  }

  /** Parser and printer agree: the parser accepts a record if and only if it is
      the canonical two lines of a valid device id and an even epoch, and returns those. */
  lemma ReleaseExact(record: Bytes, r: ReleaseRecord)
    ensures ParseRelease(record) == Some(r) <==>
            ValidId(r.deviceId) && r.epoch % 2 == 0 && record == PrintRelease(r)
  {
    if ParseRelease(record) == Some(r) {
      ReleasePrints(record, r);
    }
    if ValidId(r.deviceId) && r.epoch % 2 == 0 && record == PrintRelease(r) {
      ReleaseParses(r);
    }
  }

  // -------------------------------------------------------------------- check

  /** No content is believed before the signature over those very bytes verified. `verifies` stands for decoding
      the DER signature and ECDSA under the operator's key. */
  predicate Releases(verifies: (Bytes, Bytes) -> bool, record: Bytes, sig: Bytes, deviceId: Bytes, epoch: u64) {
    && |sig| <= MAX_SIG
    && verifies(record, sig)
    && ParseRelease(record) == Some(ReleaseRecord(deviceId, epoch))
  }

  /** What lifts a stop is the operator's signature over exactly (this device, this epoch), the
      epoch even: nothing else passes, and anything that is this passes. */
  lemma ReleasesIff(verifies: (Bytes, Bytes) -> bool, record: Bytes, sig: Bytes, deviceId: Bytes, epoch: u64)
    ensures Releases(verifies, record, sig, deviceId, epoch) <==>
            && |sig| <= MAX_SIG && verifies(record, sig)
            && ValidId(deviceId) && epoch % 2 == 0
            && record == PrintRelease(ReleaseRecord(deviceId, epoch))
  {
    ReleaseExact(record, ReleaseRecord(deviceId, epoch));
  }
}
