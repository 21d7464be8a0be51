/** `TPMS_ATTEST`, the structure a TPM signs: its two layouts the protocol reads (quote and
    NV certify), the cursor that parses them, and the proof that printer and parser are inverse. */
module TpmWire {
  import opened Bytes

  const TPM_GENERATED_VALUE: u32 := 0xFF54_4347
  const ST_ATTEST_NV: u16 := 0x8014
  const ST_ATTEST_QUOTE: u16 := 0x8018
  const ALG_SHA256: u16 := 0x000B
  const MAX_BANKS := 16

  /** `TPMS_CLOCK_INFO`. */
  datatype Clock = Clock(clock: u64, resetCount: u32, restartCount: u32, safe: bool) {
    predicate SameBoot(other: Clock) {
      resetCount == other.resetCount && restartCount == other.restartCount
    }
  }

  /** The fields both attestation types start with, after magic and type. */
  datatype Head = Head(qualifiedSigner: Bytes, extraData: Bytes, clock: Clock) {
    predicate Valid() {
      Fits2b(qualifiedSigner) && Fits2b(extraData)
    }
  }

  datatype Bank = Bank(alg: u16, bits: Bytes)

  /** The raw `TPML_PCR_SELECTION` a parsed quote keeps: entry count and undecoded body. */
  datatype PcrBanks = PcrBanks(count: u32, body: Bytes) {
    predicate Valid() {
      count <= MAX_BANKS && WalkBanks(body, count).Some? && WalkBanks(body, count).value.1 == []
    }
    function Entries(): seq<Bank>
      requires Valid()
    {
      WalkBanks(body, count).value.0
    }
  }

  datatype Quote = Quote(head: Head, firmwareVersion: u64, pcrBanks: PcrBanks, pcrDigest: Bytes) {
    predicate Valid() {
      head.Valid() && pcrBanks.Valid() && Fits2b(pcrDigest)
    }
  }

  /** The NV certify parser skips the 8 firmware bytes, so they are no field here. */
  datatype NvAttest = NvAttest(head: Head, indexName: Bytes, offset: u16, contents: Bytes) {
    predicate Valid() {
      head.Valid() && Fits2b(indexName) && Fits2b(contents)
    }
  }

  predicate Fits2b(p: Bytes) {
    |p| < 0x1_0000
  }

  // ------------------------------------------------------------------ printers

  function Tpm2b(p: Bytes): Bytes
    requires Fits2b(p)
  {
    PutU16(|p|) + p
  }

  function PutClock(c: Clock): (s: Bytes)
    ensures |s| == 17
  {
    PutU64(c.clock) + (PutU32(c.resetCount) + (PutU32(c.restartCount) + [if c.safe then 1 else 0]))
  }

  function PutHead(ty: u16, h: Head): Bytes
    requires h.Valid()
  {
    PutU32(TPM_GENERATED_VALUE) +
    (PutU16(ty) + (Tpm2b(h.qualifiedSigner) + (Tpm2b(h.extraData) + PutClock(h.clock))))
  }

  predicate ValidBank(k: Bank) {
    |k.bits| < 0x100
  }

  function PutBank(k: Bank): Bytes
    requires ValidBank(k)
  {
    PutU16(k.alg) + ([|k.bits|] + k.bits)
  }

  function PutBanks(ks: seq<Bank>): Bytes
    requires forall k | k in ks :: ValidBank(k)
  {
    if ks == [] then [] else PutBank(ks[0]) + PutBanks(ks[1..])
  }

  function PutQuote(q: Quote): Bytes
    requires q.Valid()
  {
    PutHead(ST_ATTEST_QUOTE, q.head) +
    (PutU64(q.firmwareVersion) + (PutU32(q.pcrBanks.count) + (q.pcrBanks.body + Tpm2b(q.pcrDigest))))
  }

  function PutNvAttest(a: NvAttest, firmware: Bytes): Bytes
    requires a.Valid() && |firmware| == 8
  {
    PutHead(ST_ATTEST_NV, a.head) +
    (firmware + (Tpm2b(a.indexName) + (PutU16(a.offset) + Tpm2b(a.contents))))
  }

  // ----------------------------------------------------------- what is parsed

  function SplitAt(b: Bytes, n: nat): Option<(Bytes, Bytes)> {
    if |b| < n then None else Some((b[..n], b[n..]))
  }

  function TakeU8(b: Bytes): Option<(u8, Bytes)> {
    if |b| < 1 then None else Some((b[0], b[1..]))
  }

  function TakeU16(b: Bytes): Option<(u16, Bytes)> {
    if |b| < 2 then None else Some((GetU16(b[..2]), b[2..]))
  }

  function TakeU32(b: Bytes): Option<(u32, Bytes)> {
    if |b| < 4 then None else Some((GetU32(b[..4]), b[4..]))
  }

  function TakeU64(b: Bytes): Option<(u64, Bytes)> {
    if |b| < 8 then None else Some((GetU64(b[..8]), b[8..]))
  }

  function TakeTpm2b(b: Bytes): Option<(Bytes, Bytes)> {
    var (n, t) :- TakeU16(b);
    SplitAt(t, n)
  }

  function TakeClock(b: Bytes): Option<(Clock, Bytes)> {
    var (clock, b1) :- TakeU64(b);
    var (resetCount, b2) :- TakeU32(b1);
    var (restartCount, b3) :- TakeU32(b2);
    var (safe, b4) :- TakeU8(b3);
    if safe > 1 then None else Some((Clock(clock, resetCount, restartCount, safe == 1), b4))
  }

  function TakeHead(ty: u16, b: Bytes): Option<(Head, Bytes)> {
    var (magic, b1) :- TakeU32(b);
    if magic != TPM_GENERATED_VALUE then None else
      var (t, b2) :- TakeU16(b1);
      if t != ty then None else
        var (signer, b3) :- TakeTpm2b(b2);
        var (extra, b4) :- TakeTpm2b(b3);
        var (clock, b5) :- TakeClock(b4);
        Some((Head(signer, extra, clock), b5))
  }

  function TakeBank(b: Bytes): Option<(Bank, Bytes)> {
    var (alg, b1) :- TakeU16(b);
    var (n, b2) :- TakeU8(b1);
    var (bits, b3) :- SplitAt(b2, n);
    Some((Bank(alg, bits), b3))
  }

  function WalkBanks(b: Bytes, count: nat): (r: Option<(seq<Bank>, Bytes)>)
    ensures r.Some? ==> |r.value.0| == count && |r.value.1| <= |b|
  {
    if count == 0 then Some(([], b)) else
      var (k, b1) :- TakeBank(b);
      var (ks, rest) :- WalkBanks(b1, count - 1);
      Some(([k] + ks, rest))
  }

  function DecodeQuote(b: Bytes): Option<Quote> {
    var (head, b1) :- TakeHead(ST_ATTEST_QUOTE, b);
    var (firmware, b2) :- TakeU64(b1);
    var (count, b3) :- TakeU32(b2);
    if count > MAX_BANKS then None else
      var (_, b4) :- WalkBanks(b3, count);
      var body := b3[..|b3| - |b4|];
      var (digest, b5) :- TakeTpm2b(b4);
      if b5 != [] then None else
        Some(Quote(head, firmware, PcrBanks(count, body), digest))
  }

  function DecodeNvAttest(b: Bytes): Option<NvAttest> {
    var (head, b1) :- TakeHead(ST_ATTEST_NV, b);
    var (_, b2) :- SplitAt(b1, 8);
    var (name, b3) :- TakeTpm2b(b2);
    var (offset, b4) :- TakeU16(b3);
    var (contents, b5) :- TakeTpm2b(b4);
    if b5 != [] then None else Some(NvAttest(head, name, offset, contents))
  }

  /** Pieces cut off the front one after another are the front, printed right-nested. */
  lemma Glue(b: Bytes, p1: Bytes, b1: Bytes, p2: Bytes, b2: Bytes)
    requires b == p1 + b1 && b1 == p2 + b2
    ensures b == (p1 + p2) + b2
  {
  }

  lemma Glue4(b: Bytes, p1: Bytes, b1: Bytes, p2: Bytes, b2: Bytes, p3: Bytes, b3: Bytes, p4: Bytes, b4: Bytes)
    requires b == p1 + b1 && b1 == p2 + b2 && b2 == p3 + b3 && b3 == p4 + b4
    ensures b == (p1 + (p2 + (p3 + p4))) + b4
  {
    Glue(b2, p3, b3, p4, b4);
    Glue(b1, p2, b2, p3 + p4, b4);
    Glue(b, p1, b1, p2 + (p3 + p4), b4);
  }

  lemma Assoc5(a: Bytes, b: Bytes, c: Bytes, d: Bytes, e: Bytes, rest: Bytes)
    ensures (a + (b + (c + (d + e)))) + rest == a + (b + (c + (d + (e + rest))))
  {
    assert (d + e) + rest == d + (e + rest);
    assert (c + (d + e)) + rest == c + ((d + e) + rest);
    assert (b + (c + (d + e))) + rest == b + ((c + (d + e)) + rest);
  }

  // ------------------------------------- a read returns what a print left there

  lemma SplitPut(a: Bytes, rest: Bytes)
    ensures SplitAt(a + rest, |a|) == Some((a, rest))
  {
    assert (a + rest)[..|a|] == a && (a + rest)[|a|..] == rest;
  }

  lemma U16Put(v: u16, rest: Bytes)
    ensures TakeU16(PutU16(v) + rest) == Some((v, rest))
  {
    GetPut16(v);
    SplitPut(PutU16(v), rest);
  }

  lemma U32Put(v: u32, rest: Bytes)
    ensures TakeU32(PutU32(v) + rest) == Some((v, rest))
  {
    GetPut32(v);
    SplitPut(PutU32(v), rest);
  }

  lemma U64Put(v: u64, rest: Bytes)
    ensures TakeU64(PutU64(v) + rest) == Some((v, rest))
  {
    GetPut64(v);
    SplitPut(PutU64(v), rest);
  }

  lemma Tpm2bPut(p: Bytes, rest: Bytes)
    requires Fits2b(p)
    ensures TakeTpm2b(Tpm2b(p) + rest) == Some((p, rest))
  {
    assert Tpm2b(p) + rest == PutU16(|p|) + (p + rest);
    U16Put(|p|, p + rest);
    SplitPut(p, rest);
  }

  lemma ClockPut(c: Clock, rest: Bytes)
    ensures TakeClock(PutClock(c) + rest) == Some((c, rest))
  {
    var safe: u8 := if c.safe then 1 else 0;
    var b3 := [safe] + rest;
    var b2 := PutU32(c.restartCount) + b3;
    var b1 := PutU32(c.resetCount) + b2;
    Assoc5([], PutU64(c.clock), PutU32(c.resetCount), PutU32(c.restartCount), [safe], rest);
    assert PutClock(c) + rest == PutU64(c.clock) + b1;
    U64Put(c.clock, b1);
    U32Put(c.resetCount, b2);
    U32Put(c.restartCount, b3);
    assert b3[0] == safe && b3[1..] == rest;
  }

  lemma HeadPut(ty: u16, h: Head, rest: Bytes)
    requires h.Valid()
    ensures TakeHead(ty, PutHead(ty, h) + rest) == Some((h, rest))
  {
    var b4 := PutClock(h.clock) + rest;
    var b3 := Tpm2b(h.extraData) + b4;
    var b2 := Tpm2b(h.qualifiedSigner) + b3;
    var b1 := PutU16(ty) + b2;
    Assoc5(PutU32(TPM_GENERATED_VALUE), PutU16(ty), Tpm2b(h.qualifiedSigner), Tpm2b(h.extraData), PutClock(h.clock),
           rest);
    U32Put(TPM_GENERATED_VALUE, b1);
    U16Put(ty, b2);
    Tpm2bPut(h.qualifiedSigner, b3);
    Tpm2bPut(h.extraData, b4);
    ClockPut(h.clock, rest);
  }

  lemma BankPut(k: Bank, rest: Bytes)
    requires ValidBank(k)
    ensures TakeBank(PutBank(k) + rest) == Some((k, rest))
  {
    var n: u8 := |k.bits|;
    var b2 := k.bits + rest;
    var b1 := [n] + b2;
    assert PutBank(k) + rest == PutU16(k.alg) + b1;
    U16Put(k.alg, b1);
    assert b1[0] == n && b1[1..] == b2;
    SplitPut(k.bits, rest);
  }

  /** A printed list of banks is walked back to itself, whatever follows it. */
  lemma {:induction false} WalkPut(ks: seq<Bank>, rest: Bytes)
    requires forall k | k in ks :: ValidBank(k)
    ensures WalkBanks(PutBanks(ks) + rest, |ks|) == Some((ks, rest))
  {
    if ks == [] {
      assert PutBanks(ks) + rest == rest;
    } else {
      var k, tail := ks[0], PutBanks(ks[1..]);
      WalkPut(ks[1..], rest);
      var b := PutBank(k) + (tail + rest);
      assert WalkBanks(b, |ks|) == Some((ks, rest)) by {
        BankPut(k, tail + rest);
        assert [k] + ks[1..] == ks;
      }
      Glue(b, PutBank(k), tail + rest, tail, rest);
    }
  }

  // ------------------------------------ what a read consumed is what it returned

  lemma U16Took(b: Bytes)
    requires TakeU16(b).Some?
    ensures b == PutU16(TakeU16(b).value.0) + TakeU16(b).value.1
  {
    PutGet16(b[..2]);
  }

  lemma U32Took(b: Bytes)
    requires TakeU32(b).Some?
    ensures b == PutU32(TakeU32(b).value.0) + TakeU32(b).value.1
  {
    PutGet32(b[..4]);
  }

  lemma U64Took(b: Bytes)
    requires TakeU64(b).Some?
    ensures b == PutU64(TakeU64(b).value.0) + TakeU64(b).value.1
  {
    PutGet64(b[..8]);
  }

  lemma Tpm2bTook(b: Bytes)
    requires TakeTpm2b(b).Some?
    ensures Fits2b(TakeTpm2b(b).value.0) && b == Tpm2b(TakeTpm2b(b).value.0) + TakeTpm2b(b).value.1
  {
    U16Took(b);
    var (n, t) := TakeU16(b).value;
    var (p, rest) := TakeTpm2b(b).value;
    assert t == p + rest;
  }

  lemma ClockTook(b: Bytes)
    requires TakeClock(b).Some?
    ensures b == PutClock(TakeClock(b).value.0) + TakeClock(b).value.1
  {
    U64Took(b);
    var (clock, b1) := TakeU64(b).value;
    U32Took(b1);
    var (resetCount, b2) := TakeU32(b1).value;
    U32Took(b2);
    var (restartCount, b3) := TakeU32(b2).value;
    var (safe, b4) := TakeU8(b3).value;
    assert b3 == [safe] + b4;
    Glue4(b, PutU64(clock), b1, PutU32(resetCount), b2, PutU32(restartCount), b3, [safe], b4);
  }

  lemma HeadTook(ty: u16, b: Bytes)
    requires TakeHead(ty, b).Some?
    ensures TakeHead(ty, b).value.0.Valid()
    ensures b == PutHead(ty, TakeHead(ty, b).value.0) + TakeHead(ty, b).value.1
  {
    U32Took(b);
    var (magic, b1) := TakeU32(b).value;
    U16Took(b1);
    var (_, b2) := TakeU16(b1).value;
    Tpm2bTook(b2);
    var (signer, b3) := TakeTpm2b(b2).value;
    Tpm2bTook(b3);
    var (extra, b4) := TakeTpm2b(b3).value;
    ClockTook(b4);
    var (clock, b5) := TakeClock(b4).value;
    Glue4(b1, PutU16(ty), b2, Tpm2b(signer), b3, Tpm2b(extra), b4, PutClock(clock), b5);
    Glue(b, PutU32(magic), b1, PutU16(ty) + (Tpm2b(signer) + (Tpm2b(extra) + PutClock(clock))), b5);
  }

  lemma BankTook(b: Bytes)
    requires TakeBank(b).Some?
    ensures ValidBank(TakeBank(b).value.0) && b == PutBank(TakeBank(b).value.0) + TakeBank(b).value.1
  {
    U16Took(b);
    var (alg, b1) := TakeU16(b).value;
    var (n, b2) := TakeU8(b1).value;
    assert b1 == [n] + b2;
    var (bits, b3) := SplitAt(b2, n).value;
    assert b2 == bits + b3;
    Glue(b1, [n], b2, bits, b3);
    Glue(b, PutU16(alg), b1, [n] + bits, b3);
  }

  lemma {:induction false} WalkTook(b: Bytes, count: nat)
    requires WalkBanks(b, count).Some?
    ensures forall k | k in WalkBanks(b, count).value.0 :: ValidBank(k)
    ensures b == PutBanks(WalkBanks(b, count).value.0) + WalkBanks(b, count).value.1
  {
    if count > 0 {
      BankTook(b);
      var (k, b1) := TakeBank(b).value;
      WalkTook(b1, count - 1);
      var (ks, rest) := WalkBanks(b1, count - 1).value;
      assert ([k] + ks)[1..] == ks;
      Glue(b, PutBank(k), b1, PutBanks(ks), rest);
      forall j | j in [k] + ks ensures ValidBank(j) {
        assert j == k || j in ks;
      }
    }
  }

  lemma QuoteTook(b: Bytes)
    requires DecodeQuote(b).Some?
    ensures DecodeQuote(b).value.Valid() && b == PutQuote(DecodeQuote(b).value)
  {
    HeadTook(ST_ATTEST_QUOTE, b);
    var (head, b1) := TakeHead(ST_ATTEST_QUOTE, b).value;
    U64Took(b1);
    var (firmware, b2) := TakeU64(b1).value;
    U32Took(b2);
    var (count, b3) := TakeU32(b2).value;
    WalkTook(b3, count);
    var (ks, b4) := WalkBanks(b3, count).value;
    var body := b3[..|b3| - |b4|];
    assert body == PutBanks(ks) && b3 == body + b4;
    WalkPut(ks, []);
    assert PutBanks(ks) + [] == body;
    Tpm2bTook(b4);
    var (digest, b5) := TakeTpm2b(b4).value;
    assert b4 == Tpm2b(digest);
  }

  lemma NvAttestTook(b: Bytes) returns (fw: Bytes)
    requires DecodeNvAttest(b).Some?
    ensures DecodeNvAttest(b).value.Valid() && |fw| == 8 && b == PutNvAttest(DecodeNvAttest(b).value, fw)
  {
    HeadTook(ST_ATTEST_NV, b);
    var (head, b1) := TakeHead(ST_ATTEST_NV, b).value;
    fw := b1[..8];
    var b2 := b1[8..];
    assert b1 == fw + b2;
    Tpm2bTook(b2);
    var (name, b3) := TakeTpm2b(b2).value;
    U16Took(b3);
    var (offset, b4) := TakeU16(b3).value;
    Tpm2bTook(b4);
    var (contents, b5) := TakeTpm2b(b4).value;
    assert b4 == Tpm2b(contents);
    assert b1 == fw + (Tpm2b(name) + (PutU16(offset) + b4));
  }

  // -------------------------------------------------------------- exactness

  /** A byte string is a quote attestation exactly when it is the layout of one: the parse of a
      marshalled quote returns its fields, and every accepted string is the marshalling of the result. */
  lemma QuoteExact(b: Bytes, q: Quote)
    ensures DecodeQuote(b) == Some(q) <==> q.Valid() && b == PutQuote(q)
  {
    if DecodeQuote(b) == Some(q) {
      QuoteTook(b);
    }
    if q.Valid() && b == PutQuote(q) {
      var b4 := Tpm2b(q.pcrDigest);
      var b3 := q.pcrBanks.body + b4;
      var b2 := PutU32(q.pcrBanks.count) + b3;
      var b1 := PutU64(q.firmwareVersion) + b2;
      HeadPut(ST_ATTEST_QUOTE, q.head, b1);
      U64Put(q.firmwareVersion, b2);
      U32Put(q.pcrBanks.count, b3);
      WalkTook(q.pcrBanks.body, q.pcrBanks.count);
      var ks := q.pcrBanks.Entries();
      assert q.pcrBanks.body == PutBanks(ks);
      WalkPut(ks, b4);
      assert b3[..|b3| - |b4|] == q.pcrBanks.body;
      Tpm2bPut(q.pcrDigest, []);
      assert b4 + [] == b4;
    }
  }

  /** The same for an NV attestation, up to the 8 firmware bytes the parser skips. */
  lemma NvAttestExact(b: Bytes, a: NvAttest)
    ensures DecodeNvAttest(b) == Some(a) <==> a.Valid() && exists fw: Bytes :: |fw| == 8 && b == PutNvAttest(a, fw)
  {
    if DecodeNvAttest(b) == Some(a) {
      var fw := NvAttestTook(b);
    }
    if a.Valid() && exists fw: Bytes :: |fw| == 8 && b == PutNvAttest(a, fw) {
      var fw: Bytes :| |fw| == 8 && b == PutNvAttest(a, fw);
      NvAttestPut(a, fw);
    }
  }

  lemma NvAttestPut(a: NvAttest, fw: Bytes)
    requires a.Valid() && |fw| == 8
    ensures DecodeNvAttest(PutNvAttest(a, fw)) == Some(a)
  {
    var b4 := Tpm2b(a.contents);
    var b3 := PutU16(a.offset) + b4;
    var b2 := Tpm2b(a.indexName) + b3;
    HeadPut(ST_ATTEST_NV, a.head, fw + b2);
    SplitPut(fw, b2);
    Tpm2bPut(a.indexName, b3);
    U16Put(a.offset, b4);
    Tpm2bPut(a.contents, []);
    assert b4 + [] == b4;
  }

  /** The type field keeps the two kinds of attestation apart: no bytes parse as both. */
  lemma NoBytesAreBoth(b: Bytes)
    ensures !(DecodeQuote(b).Some? && DecodeNvAttest(b).Some?)
  {
    if DecodeQuote(b).Some? {
      assert TakeU16(TakeU32(b).value.1).value.0 == ST_ATTEST_QUOTE;
    }
  }

  /** The raw selection of a parsed quote is its entries: printing them gives back the body. */
  lemma EntriesPrintTheBody(p: PcrBanks)
    requires p.Valid()
    ensures |p.Entries()| == p.count && (forall k | k in p.Entries() :: ValidBank(k))
    ensures PutBanks(p.Entries()) == p.body
  {
    WalkTook(p.body, p.count);
  }

  // ------------------------------------------------------------ imperative form

  /** The cursor both crates read TPM structures with: every read advances `b`. */
  class Cursor {
    var b: Bytes

    constructor (b: Bytes)
      ensures this.b == b
    {
      this.b := b;
    }

    method Take(n: nat) returns (r: Option<Bytes>)
      modifies this
      ensures r.Some? <==> n <= |old(b)|
      ensures r.Some? ==> Some((r.value, b)) == SplitAt(old(b), n)
    {
      if |b| < n {
        return None;
      }
      r := Some(b[..n]);
      b := b[n..];
    }

    method U8() returns (r: Option<u8>)
      modifies this
      ensures r.Some? <==> TakeU8(old(b)).Some?
      ensures r.Some? ==> Some((r.value, b)) == TakeU8(old(b))
    {
      var h :- Take(1);
      return Some(h[0]);
    }

    method U16() returns (r: Option<u16>)
      modifies this
      ensures r.Some? <==> TakeU16(old(b)).Some?
      ensures r.Some? ==> Some((r.value, b)) == TakeU16(old(b))
    {
      var h :- Take(2);
      return Some(GetU16(h));
    }

    method U32() returns (r: Option<u32>)
      modifies this
      ensures r.Some? <==> TakeU32(old(b)).Some?
      ensures r.Some? ==> Some((r.value, b)) == TakeU32(old(b))
    {
      var h :- Take(4);
      return Some(GetU32(h));
    }

    method U64() returns (r: Option<u64>)
      modifies this
      ensures r.Some? <==> TakeU64(old(b)).Some?
      ensures r.Some? ==> Some((r.value, b)) == TakeU64(old(b))
    {
      var h :- Take(8);
      return Some(GetU64(h));
    }

    method Tpm2b() returns (r: Option<Bytes>)
      modifies this
      ensures r.Some? <==> TakeTpm2b(old(b)).Some?
      ensures r.Some? ==> Some((r.value, b)) == TakeTpm2b(old(b))
    {
      var n :- U16();
      r := Take(n);
    }

    method ClockInfo() returns (r: Option<Clock>)
      modifies this
      ensures r.Some? <==> TakeClock(old(b)).Some?
      ensures r.Some? ==> Some((r.value, b)) == TakeClock(old(b))
    {
      var clock :- U64();
      var resetCount :- U32();
      var restartCount :- U32();
      var safe :- U8();
      if safe > 1 {
        return None;
      }
      return Some(Clock(clock, resetCount, restartCount, safe == 1));
    }

    method AttestHead(ty: u16) returns (r: Option<Head>)
      modifies this
      ensures r.Some? <==> TakeHead(ty, old(b)).Some?
      ensures r.Some? ==> Some((r.value, b)) == TakeHead(ty, old(b))
    {
      var magic :- U32();
      if magic != TPM_GENERATED_VALUE {
        return None;
      }
      var t :- U16();
      if t != ty {
        return None;
      }
      var signer :- Tpm2b();
      var extra :- Tpm2b();
      var clock :- ClockInfo();
      return Some(Head(signer, extra, clock));
    }

    /** The selection loop of `Quote::parse`: it only moves the cursor over the entries. */
    method SkipBanks(count: nat) returns (r: Option<nat>)
      modifies this
      ensures r.Some? <==> WalkBanks(old(b), count).Some?
      ensures r.Some? ==> b == WalkBanks(old(b), count).value.1
    {
      var i := 0;
      while i < count
        invariant i <= count
        invariant WalkBanks(old(b), count).Some? <==> WalkBanks(b, count - i).Some?
        invariant WalkBanks(old(b), count).Some? ==>
                    WalkBanks(old(b), count).value.1 == WalkBanks(b, count - i).value.1
      {
        ghost var walked := WalkBanks(b, count - i);
        var alg :- U16();
        var n :- U8();
        var bits :- Take(n);
        i := i + 1;
      }
      return Some(count);
    }
  }

  /** `Quote::parse`: the selection loop only advances the cursor; the body is cut out afterwards. */
  method ParseQuote(bytes: Bytes) returns (r: Option<Quote>)
    ensures r == DecodeQuote(bytes)
  {
    var c := new Cursor(bytes);
    var head :- c.AttestHead(ST_ATTEST_QUOTE);
    var firmware :- c.U64();
    var count :- c.U32();
    if count > MAX_BANKS {
      return None;
    }
    var bodyStart := c.b;
    var _ :- c.SkipBanks(count);
    var body := bodyStart[..|bodyStart| - |c.b|];
    var digest :- c.Tpm2b();
    if c.b != [] {
      return None;
    }
    return Some(Quote(head, firmware, PcrBanks(count, body), digest));
  }

  /** `parse_nv_certify_info`. */
  method ParseNvAttest(bytes: Bytes) returns (r: Option<NvAttest>)
    ensures r == DecodeNvAttest(bytes)
  {
    var c := new Cursor(bytes);
    var head :- c.AttestHead(ST_ATTEST_NV);
    var _ :- c.Take(8);
    var name :- c.Tpm2b();
    var offset :- c.U16();
    var contents :- c.Tpm2b();
    if c.b != [] {
      return None;
    }
    return Some(NvAttest(head, name, offset, contents));
  }

  /** `PcrBanks::iter` moves a captured slice and checks no bound: what the parse established is
      enough for every index to be in range and for exactly `count` entries to come out. */
  method IterBanks(p: PcrBanks) returns (ks: seq<Bank>)
    requires p.Valid()
    ensures |ks| == p.count && ks == p.Entries()
  {
    hide TakeBank, GetU16;
    var b, left := p.body, p.count as nat;
    ghost var todo := p.Entries();
    ks := [];
    while left > 0
      invariant |todo| == left && WalkBanks(b, left) == Some((todo, []))
      invariant ks + todo == p.Entries()
    {
      BankAt(b);
      var n: int := b[2];
      var k := Bank(GetU16(b[..2]), b[3..3 + n]);
      assert todo == [k] + todo[1..];
      b, left, ks, todo := b[3 + n..], left - 1, ks + [k], todo[1..];
    }
  }

  lemma BankAt(b: Bytes)
    requires TakeBank(b).Some?
    ensures |b| >= 3 && 3 + (b[2] as int) <= |b|
    ensures var n: int := b[2]; TakeBank(b) == Some((Bank(GetU16(b[..2]), b[3..3 + n]), b[3 + n..]))
  {
    var n: int := b[2];
    assert b[2..][1..] == b[3..] && b[3..][..n] == b[3..3 + n] && b[3..][n..] == b[3 + n..];
  }
}
