/** The bodies of the stop service's evidence: stop record, NV certify section, receipt, and the
    inputs of the three digests both ends compute. */
module StopCodec {
  import opened Bytes
  import opened Text
  import opened TpmWire
  import opened Envelope

  const HEAD_LEN := 44
  const STATUS_LEN := HEAD_LEN
  const REFUSAL_LEN := HEAD_LEN + 32
  const NONCE_MIN := 16
  const NONCE_MAX := 64
  const ATTEST_MAX := 2048
  const SIG_MAX := 512
  const BUNDLE_MAX := 64 * 1024

  // -------------------------------------------------------------- stop record

  datatype State = Running | Stopped

  datatype Kind = Refusal(requestDigest: Digest) | Status

  datatype StopRecord = StopRecord(kind: Kind, state: State, stopEpoch: u64, policyDigest: Digest) {
    /** The one combination the service never produces is a refusal while running. */
    predicate Encodable() {
      kind.Refusal? ==> state.Stopped?
    }
  }

  function KindByte(k: Kind): u8 {
    match k
    case Refusal(_) => 0x01
    case Status => 0x02
  }

  function StateByte(s: State): u8 {
    match s
    case Running => 0x01
    case Stopped => 0x02
  }

  function PutRecord(r: StopRecord): Bytes {
    [0x01, KindByte(r.kind), StateByte(r.state), 0x00] +
    (PutU64(r.stopEpoch) + (r.policyDigest + (match r.kind case Refusal(d) => d case Status => [])))
  }

  function DecodeRecord(b: Bytes): (r: Option<StopRecord>)
    ensures r.Some? ==> r.value.Encodable()
  {
    if |b| < HEAD_LEN || b[0] != 0x01 || b[2] !in {0x01, 0x02} || b[3] != 0x00 then None else
      var state := if b[2] == 0x01 then Running else Stopped;
      var epoch, policy := GetU64(b[4..12]), b[12..HEAD_LEN];
      if b[1] == 0x02 && |b| == STATUS_LEN then
        Some(StopRecord(Status, state, epoch, policy))
      else if b[1] == 0x01 && |b| == REFUSAL_LEN && state.Stopped? then
        Some(StopRecord(Refusal(b[HEAD_LEN..REFUSAL_LEN]), state, epoch, policy))
      else
        None
  }

  lemma RecordPut(r: StopRecord)
    requires r.Encodable()
    ensures DecodeRecord(PutRecord(r)) == Some(r)
  {
    var b := PutRecord(r);
    GetPut64(r.stopEpoch);
    assert b[4..12] == PutU64(r.stopEpoch) && b[12..44] == r.policyDigest;
    assert r.kind.Refusal? ==> b[44..76] == r.kind.requestDigest;
  }

  lemma RecordTook(b: Bytes)
    requires DecodeRecord(b).Some?
    ensures b == PutRecord(DecodeRecord(b).value)
  {
    PutGet64(b[4..12]);
    var tail := b[HEAD_LEN..];
    assert b == [b[0], b[1], b[2], b[3]] + (b[4..12] + (b[12..44] + tail));
    assert |b| == REFUSAL_LEN ==> b[HEAD_LEN..REFUSAL_LEN] == tail;
  }

  /** A section body is a stop record exactly when it is the encoding of one the service may emit. */
  lemma RecordExact(b: Bytes, r: StopRecord)
    ensures DecodeRecord(b) == Some(r) <==> r.Encodable() && b == PutRecord(r)
  {
    if DecodeRecord(b) == Some(r) {
      RecordTook(b);
    }
    if r.Encodable() && b == PutRecord(r) {
      RecordPut(r);
    }
  }

  /** `StopRecord::encode`, which appends field by field. */
  method EncodeRecord(r: StopRecord) returns (out: Option<Bytes>)
    ensures out == if r.Encodable() then Some(PutRecord(r)) else None
  {
    if r.kind.Refusal? && r.state.Running? {
      return None;
    }
    var o: Bytes := [0x01];
    o := o + [KindByte(r.kind)];
    o := o + [StateByte(r.state)];
    o := o + [0x00];
    o := o + PutU64(r.stopEpoch);
    o := o + r.policyDigest;
    if r.kind.Refusal? {
      o := o + r.kind.requestDigest;
    }
    assert o == PutRecord(r);
    return Some(o);
  }

  predicate NonceFits(n: Bytes) {
    NONCE_MIN <= |n| <= NONCE_MAX
  }

  // ------------------------------------------- NV certify section and receipt

  datatype NvCertify = NvCertify(attest: Bytes, sig: Bytes) {
    predicate Encodable() {
      Bounded(attest, ATTEST_MAX) && Bounded(sig, SIG_MAX)
    }
  }

  datatype Receipt = Receipt(msg: Bytes, quoteAttest: Bytes, quoteSig: Bytes, bundle: Bytes) {
    predicate Encodable() {
      |msg| == MSG_LEN && Bounded(quoteAttest, ATTEST_MAX) && Bounded(quoteSig, SIG_MAX) && Bounded(bundle, BUNDLE_MAX)
    }
  }

  const RECEIPT_MAGIC: Bytes := [0x54, 0x51, 0x53, 0x52] // "TQSR"
  const RECEIPT_VERSION: u8 := 0x01

  predicate Bounded(p: Bytes, max: nat) {
    0 < |p| <= max
  }

  function Len16(p: Bytes): Bytes
    requires |p| < 0x1_0000
  {
    PutU16(|p|) + p
  }

  function Len32(p: Bytes): Bytes
    requires |p| < 0x1_0000_0000
  {
    PutU32(|p|) + p
  }

  function PutCertify(c: NvCertify): Bytes
    requires c.Encodable()
  {
    Len16(c.attest) + Len16(c.sig)
  }

  function PutReceipt(r: Receipt): Bytes
    requires r.Encodable()
  {
    (RECEIPT_MAGIC + [RECEIPT_VERSION]) + PutParts(r)
  }

  function PutParts(r: Receipt): Bytes
    requires r.Encodable()
  {
    Len32(r.msg) + (Len32(r.quoteAttest) + (Len32(r.quoteSig) + Len32(r.bundle)))
  }

  /** A part of 1..=max bytes off the front of `b`. */
  function TakePart(b: Bytes, n: nat, max: nat): Option<(Bytes, Bytes)> {
    if n == 0 || n > max then None else SplitAt(b, n)
  }

  function TakePart16(b: Bytes, max: nat): Option<(Bytes, Bytes)> {
    var (n, t) :- TakeU16(b);
    TakePart(t, n, max)
  }

  function TakePart32(b: Bytes, max: nat): Option<(Bytes, Bytes)> {
    var (n, t) :- TakeU32(b);
    TakePart(t, n, max)
  }

  function DecodeCertify(b: Bytes): Option<NvCertify> {
    var (attest, b1) :- TakePart16(b, ATTEST_MAX);
    var (sig, b2) :- TakePart16(b1, SIG_MAX);
    if b2 != [] then None else Some(NvCertify(attest, sig))
  }

  function DecodeReceipt(b: Bytes): Option<Receipt> {
    if |b| < 5 || b[..4] != RECEIPT_MAGIC || b[4] != RECEIPT_VERSION then None else DecodeParts(b[5..])
  }

  function DecodeParts(b: Bytes): Option<Receipt> {
    var (msg, b1) :- TakePart32(b, MSG_LEN);
    if |msg| != MSG_LEN then None else
      var (quoteAttest, b2) :- TakePart32(b1, ATTEST_MAX);
      var (quoteSig, b3) :- TakePart32(b2, SIG_MAX);
      var (bundle, b4) :- TakePart32(b3, BUNDLE_MAX);
      if b4 != [] then None else Some(Receipt(msg, quoteAttest, quoteSig, bundle))
  }

  lemma PartPut(p: Bytes, max: nat, rest: Bytes)
    requires Bounded(p, max)
    ensures |p| < 0x1_0000 ==> TakePart16(Len16(p) + rest, max) == Some((p, rest))
    ensures |p| < 0x1_0000_0000 ==> TakePart32(Len32(p) + rest, max) == Some((p, rest))
  {
    SplitPut(p, rest);
    if |p| < 0x1_0000 {
      U16Put(|p|, p + rest);
      assert Len16(p) + rest == PutU16(|p|) + (p + rest);
    }
    if |p| < 0x1_0000_0000 {
      U32Put(|p|, p + rest);
      assert Len32(p) + rest == PutU32(|p|) + (p + rest);
    }
  }

  lemma Part16Took(b: Bytes, max: nat)
    requires TakePart16(b, max).Some?
    ensures var (p, rest) := TakePart16(b, max).value; Bounded(p, max) && |p| < 0x1_0000 && b == Len16(p) + rest
  {
    U16Took(b);
    var (n, t) := TakeU16(b).value;
    var (p, rest) := TakePart16(b, max).value;
    Glue(b, PutU16(n), t, p, rest);
  }

  lemma Part32Took(b: Bytes, max: nat)
    requires TakePart32(b, max).Some?
    ensures var (p, rest) := TakePart32(b, max).value; Bounded(p, max) && |p| < 0x1_0000_0000 && b == Len32(p) + rest
  {
    U32Took(b);
    var (n, t) := TakeU32(b).value;
    var (p, rest) := TakePart32(b, max).value;
    Glue(b, PutU32(n), t, p, rest);
  }

  lemma CertifyPut(c: NvCertify)
    requires c.Encodable()
    ensures DecodeCertify(PutCertify(c)) == Some(c)
  {
    PartPut(c.attest, ATTEST_MAX, Len16(c.sig));
    PartPut(c.sig, SIG_MAX, []);
    assert Len16(c.sig) + [] == Len16(c.sig);
  }

  lemma CertifyTook(b: Bytes)
    requires DecodeCertify(b).Some?
    ensures DecodeCertify(b).value.Encodable() && b == PutCertify(DecodeCertify(b).value)
  {
    Part16Took(b, ATTEST_MAX);
    var (attest, b1) := TakePart16(b, ATTEST_MAX).value;
    Part16Took(b1, SIG_MAX);
    assert b1 == Len16(TakePart16(b1, SIG_MAX).value.0);
  }

  lemma CertifyExact(b: Bytes, c: NvCertify)
    ensures DecodeCertify(b) == Some(c) <==> c.Encodable() && b == PutCertify(c)
  {
    if DecodeCertify(b) == Some(c) {
      CertifyTook(b);
    }
    if c.Encodable() && b == PutCertify(c) {
      CertifyPut(c);
    }
  }

  lemma PartsPut(r: Receipt)
    requires r.Encodable()
    ensures DecodeParts(PutParts(r)) == Some(r)
  {
    var b3 := Len32(r.bundle);
    var b2 := Len32(r.quoteSig) + b3;
    var b1 := Len32(r.quoteAttest) + b2;
    PartPut(r.msg, MSG_LEN, b1);
    PartPut(r.quoteAttest, ATTEST_MAX, b2);
    PartPut(r.quoteSig, SIG_MAX, b3);
    PartPut(r.bundle, BUNDLE_MAX, []);
    assert b3 + [] == b3;
  }

  lemma PartsTook(b: Bytes)
    requires DecodeParts(b).Some?
    ensures DecodeParts(b).value.Encodable() && b == PutParts(DecodeParts(b).value)
  {
    Part32Took(b, MSG_LEN);
    var (msg, b1) := TakePart32(b, MSG_LEN).value;
    Part32Took(b1, ATTEST_MAX);
    var (quoteAttest, b2) := TakePart32(b1, ATTEST_MAX).value;
    Part32Took(b2, SIG_MAX);
    var (quoteSig, b3) := TakePart32(b2, SIG_MAX).value;
    Part32Took(b3, BUNDLE_MAX);
    var (bundle, b4) := TakePart32(b3, BUNDLE_MAX).value;
    assert b3 == Len32(bundle);
  }

  /** A byte string is a receipt exactly when it is the encoding of four parts within their bounds. */
  lemma ReceiptExact(b: Bytes, r: Receipt)
    ensures DecodeReceipt(b) == Some(r) <==> r.Encodable() && b == PutReceipt(r)
  {
    hide DecodeParts, PutParts;
    if DecodeReceipt(b) == Some(r) {
      PartsTook(b[5..]);
      assert b == (RECEIPT_MAGIC + [RECEIPT_VERSION]) + b[5..];
    }
    if r.Encodable() && b == PutReceipt(r) {
      PartsPut(r);
      assert b[..4] == RECEIPT_MAGIC && b[5..] == PutParts(r);
    }
  }

  method EncodeCertify(c: NvCertify) returns (out: Option<Bytes>)
    ensures out == if c.Encodable() then Some(PutCertify(c)) else None
  {
    if !Bounded(c.attest, ATTEST_MAX) || !Bounded(c.sig, SIG_MAX) {
      return None;
    }
    var o := PutU16(|c.attest|);
    o := o + c.attest;
    o := o + PutU16(|c.sig|);
    o := o + c.sig;
    assert o == PutCertify(c);
    return Some(o);
  }

  method EncodeReceipt(r: Receipt) returns (out: Option<Bytes>)
    ensures out == if r.Encodable() then Some(PutReceipt(r)) else None
  {
    if !r.Encodable() {
      return None;
    }
    var o := RECEIPT_MAGIC;
    o := o + [RECEIPT_VERSION];
    var parts := [r.msg, r.quoteAttest, r.quoteSig, r.bundle];
    ghost var printed := [Len32(r.msg), Len32(r.quoteAttest), Len32(r.quoteSig), Len32(r.bundle)];
    ghost var left := PutReceipt(r)[5..];
    assert left == printed[0] + (printed[1] + (printed[2] + printed[3]));
    for i := 0 to 4
      invariant o + left == PutReceipt(r)
      invariant i == 0 ==> left == printed[0] + (printed[1] + (printed[2] + printed[3]))
      invariant i == 1 ==> left == printed[1] + (printed[2] + printed[3])
      invariant i == 2 ==> left == printed[2] + printed[3]
      invariant i == 3 ==> left == printed[3]
      invariant i == 4 ==> left == []
    {
      var v := parts[i];
      assert left[..|printed[i]|] == printed[i];
      o := o + PutU32(|v|);
      o := o + v;
      left := left[|printed[i]|..];
    }
    assert o + [] == o;
    return Some(o);
  }

  /** Cuts length-prefixed parts off the front of `b`. A length over its bound, or over what is left,
      is refused and cuts nothing. */
  class Reader {
    var b: Bytes

    constructor (b: Bytes)
      ensures this.b == b
    {
      this.b := b;
    }

    method TakeN(n: nat, max: nat) returns (r: Option<Bytes>)
      modifies this
      ensures r.Some? <==> TakePart(old(b), n, max).Some?
      ensures r.Some? ==> Some((r.value, b)) == TakePart(old(b), n, max)
    {
      if n == 0 || n > max || n > |b| {
        return None;
      }
      r := Some(b[..n]);
      b := b[n..];
    }

    method Take16(max: nat) returns (r: Option<Bytes>)
      modifies this
      ensures r.Some? <==> TakePart16(old(b), max).Some?
      ensures r.Some? ==> Some((r.value, b)) == TakePart16(old(b), max)
    {
      if |b| < 2 {
        return None;
      }
      var n := GetU16(b[..2]);
      b := b[2..];
      r := TakeN(n, max);
    }

    method Take32(max: nat) returns (r: Option<Bytes>)
      modifies this
      ensures r.Some? <==> TakePart32(old(b), max).Some?
      ensures r.Some? ==> Some((r.value, b)) == TakePart32(old(b), max)
    {
      if |b| < 4 {
        return None;
      }
      var n := GetU32(b[..4]);
      b := b[4..];
      r := TakeN(n, max);
    }
  }

  method ParseCertify(body: Bytes) returns (c: Option<NvCertify>)
    ensures c == DecodeCertify(body)
  {
    var r := new Reader(body);
    var attest :- r.Take16(ATTEST_MAX);
    var sig :- r.Take16(SIG_MAX);
    if r.b != [] {
      return None;
    }
    return Some(NvCertify(attest, sig));
  }

  method ParseReceipt(bytes: Bytes) returns (c: Option<Receipt>)
    ensures c == DecodeReceipt(bytes)
  {
    if |bytes| < 5 || bytes[..4] != RECEIPT_MAGIC || bytes[4] != RECEIPT_VERSION {
      return None;
    }
    var r := new Reader(bytes[5..]);
    var msg :- r.Take32(MSG_LEN);
    if |msg| != MSG_LEN {
      return None;
    }
    var quoteAttest :- r.Take32(ATTEST_MAX);
    var quoteSig :- r.Take32(SIG_MAX);
    var bundle :- r.Take32(BUNDLE_MAX);
    if r.b != [] {
      return None;
    }
    return Some(Receipt(msg, quoteAttest, quoteSig, bundle));
  }

  // ------------------------------------------------------------------ digests

  const REQUEST_DOMAIN: Bytes := Ascii("tactiq-stop/request/v1\0")
  const QUOTE_DOMAIN: Bytes := Ascii("tactiq-stop/quote/v1\0")
  const CERTIFY_DOMAIN: Bytes := Ascii("tactiq-stop/certify/v1\0")

  function RequestInput(method_: Bytes, path: Bytes, body: Bytes): Bytes {
    REQUEST_DOMAIN + (method_ + ([0] + (path + ([0] + body))))
  }

  function QuoteInput(msg: Bytes): Bytes {
    QUOTE_DOMAIN + msg
  }

  function CertifyInput(recordBody: Bytes, nonce: Bytes): Bytes {
    CERTIFY_DOMAIN + (recordBody + nonce)
  }

  /** No input of one domain is an input of another, whatever follows the domain string. */
  lemma DomainsAreDisjoint(request: Bytes, certify: Bytes, quote: Bytes)
    ensures REQUEST_DOMAIN + request != CERTIFY_DOMAIN + certify
    ensures REQUEST_DOMAIN + request != QUOTE_DOMAIN + quote
    ensures CERTIFY_DOMAIN + certify != QUOTE_DOMAIN + quote
  {
    assert (REQUEST_DOMAIN + request)[12] == 'r' as int;
    assert (CERTIFY_DOMAIN + certify)[12] == 'c' as int;
    assert (QUOTE_DOMAIN + quote)[12] == 'q' as int;
  }

  /** The certify input needs no length mark between record and nonce: the kind byte fixes the
      record's length, so two inputs agree only if record and nonce agree. No bound on the nonces
      is needed, although a 76-byte refusal is as long as a 44-byte status with a 32-byte nonce. */
  lemma CertifyInputIsUnambiguous(body1: Bytes, nonce1: Bytes, body2: Bytes, nonce2: Bytes)
    requires DecodeRecord(body1).Some? && DecodeRecord(body2).Some?
    requires CertifyInput(body1, nonce1) == CertifyInput(body2, nonce2)
    ensures body1 == body2 && nonce1 == nonce2
  {
    SplitConcat(CERTIFY_DOMAIN, body1 + nonce1, CERTIFY_DOMAIN, body2 + nonce2);
    assert (body1 + nonce1)[1] == body1[1] && (body2 + nonce2)[1] == body2[1];
    SplitConcat(body1, nonce1, body2, nonce2);
  }

  /** The stop quote's input is longer than any canonical message, which an agent envelope's
      quote hashes bare. */
  lemma QuoteInputIsNoMessage(msg: Bytes, agentMsg: Bytes)
    requires |msg| == MSG_LEN && |agentMsg| == MSG_LEN
    ensures QuoteInput(msg) != agentMsg
  {
  }

  /** Splitting at the first NUL: the prefix before it is determined when it holds none itself. */
  lemma FirstNulSplits(a: Bytes, x: Bytes, b: Bytes, y: Bytes)
    requires 0 !in a && 0 !in b && a + ([0] + x) == b + ([0] + y)
    ensures a == b && x == y
  {
    FirstNulAt(a, x);
    FirstNulAt(b, y);
    SplitConcat(a, [0] + x, b, [0] + y);
    assert x == ([0] + x)[1..] && y == ([0] + y)[1..];
  }

  lemma FirstNulAt(a: Bytes, x: Bytes)
    requires 0 !in a
    ensures (a + ([0] + x))[|a|] == 0 && forall i | 0 <= i < |a| :: (a + ([0] + x))[i] != 0
  {
    forall i | 0 <= i < |a| ensures (a + ([0] + x))[i] != 0 {
      assert a[i] in a;
    }
  }

  lemma RequestTail(m1: Bytes, path1: Bytes, body1: Bytes, m2: Bytes, path2: Bytes, body2: Bytes)
    requires 0 !in m1 && 0 !in m2 && RequestInput(m1, path1, body1) == RequestInput(m2, path2, body2)
    ensures m1 == m2 && path1 + ([0] + body1) == path2 + ([0] + body2)
  {
    SplitConcat(REQUEST_DOMAIN, m1 + ([0] + (path1 + ([0] + body1))),
                REQUEST_DOMAIN, m2 + ([0] + (path2 + ([0] + body2))));
    FirstNulSplits(m1, path1 + ([0] + body1), m2, path2 + ([0] + body2));
  }

  /** Which requests share a digest input: those that split the same bytes at two of their NULs. */
  lemma SameInputIff(m: Bytes, path: Bytes, body: Bytes, m2: Bytes, path2: Bytes, body2: Bytes)
    ensures RequestInput(m2, path2, body2) == RequestInput(m, path, body) <==>
            var s, i, j := m + ([0] + (path + ([0] + body))), |m2|, |m2| + 1 + |path2|;
            && j < |s| && s[i] == 0 && s[j] == 0
            && m2 == s[..i] && path2 == s[i + 1..j] && body2 == s[j + 1..]
  {
    var s, s2 := m + ([0] + (path + ([0] + body))), m2 + ([0] + (path2 + ([0] + body2)));
    var i, j := |m2|, |m2| + 1 + |path2|;
    if RequestInput(m2, path2, body2) == RequestInput(m, path, body) {
      SplitConcat(REQUEST_DOMAIN, s, REQUEST_DOMAIN, s2);
    }
    if j < |s| && s[i] == 0 && s[j] == 0 && m2 == s[..i] && path2 == s[i + 1..j] && body2 == s[j + 1..] {
      assert s == s2;
    }
  }

  /** Among methods without a NUL, those of one method that split the same bytes at one NUL. */
  lemma SameInputOneMethodIff(m: Bytes, path: Bytes, body: Bytes, m2: Bytes, path2: Bytes, body2: Bytes)
    requires 0 !in m && 0 !in m2
    ensures RequestInput(m2, path2, body2) == RequestInput(m, path, body) <==>
            var s := path + ([0] + body);
            && m2 == m && |path2| < |s| && s[|path2|] == 0
            && path2 == s[..|path2|] && body2 == s[|path2| + 1..]
  {
    var s := path + ([0] + body);
    if RequestInput(m2, path2, body2) == RequestInput(m, path, body) {
      RequestTail(m2, path2, body2, m, path, body);
      assert s == path2 + ([0] + body2);
    }
    if |path2| < |s| && s[|path2|] == 0 && path2 == s[..|path2|] && body2 == s[|path2| + 1..] {
      assert s == path2 + ([0] + body2);
    }
  }

  /** A NUL in the body, with text before it: where another request may put the end of its path. */
  ghost predicate TextBeforeNul(body: Bytes) {
    exists j :: 0 <= j < |body| && body[j] == 0 && IsUtf8(body[..j])
  }

  /** Method and path are text. A request is the only one with its digest input exactly when its method and
      path hold no NUL and no NUL of its body has text before it. */
  lemma RequestInputIsUnambiguousIff(m: Bytes, path: Bytes, body: Bytes)
    requires IsUtf8(m) && IsUtf8(path)
    ensures (forall m2: Bytes, path2: Bytes, body2: Bytes |
               IsUtf8(m2) && IsUtf8(path2) && RequestInput(m2, path2, body2) == RequestInput(m, path, body) ::
               m2 == m && path2 == path && body2 == body)
            <==> 0 !in m && 0 !in path && !TextBeforeNul(body)
  {
    hide RequestInput, IsUtf8;
    if 0 in m {
      var i :| 0 <= i < |m| && m[i] == 0;
      NulInMethod(m, path, body, i);
    } else if 0 in path {
      var i :| 0 <= i < |path| && path[i] == 0;
      NulInPath(m, path, body, i);
    } else if TextBeforeNul(body) {
      var j :| 0 <= j < |body| && body[j] == 0 && IsUtf8(body[..j]);
      NulInBody(m, path, body, j);
    } else {
      forall m2: Bytes, path2: Bytes, body2: Bytes |
        IsUtf8(m2) && IsUtf8(path2) && RequestInput(m2, path2, body2) == RequestInput(m, path, body)
        ensures m2 == m && path2 == path && body2 == body
      {
        if 0 in m2 {
          MethodWithNul(m, path, body, m2, path2, body2);
        }
        OnlySplit(m, path, body, m2, path2, body2);
      }
    }
  }

  lemma NulInMethod(m: Bytes, path: Bytes, body: Bytes, i: nat)
    requires IsUtf8(m) && i < |m| && m[i] == 0
    ensures IsUtf8(m[..i]) && IsUtf8(m[i + 1..]) && m[..i] != m
    ensures RequestInput(m[..i], m[i + 1..], path + ([0] + body)) == RequestInput(m, path, body)
  {
    hide IsUtf8;
    assert m == m[..i] + [0] + m[i + 1..];
    Utf8Splits(m[..i], 0, m[i + 1..]);
    var tail := [0] + (path + ([0] + body));
    assert m[..i] + ([0] + (m[i + 1..] + tail)) == m + tail;
  }

  /** A method with a NUL has the input of one without only if text stands before a NUL of the body. */
  lemma MethodWithNul(m: Bytes, path: Bytes, body: Bytes, m2: Bytes, path2: Bytes, body2: Bytes)
    requires IsUtf8(m2) && IsUtf8(path2) && RequestInput(m2, path2, body2) == RequestInput(m, path, body)
    requires 0 !in m && 0 !in path && 0 in m2
    ensures TextBeforeNul(body)
  {
    hide IsUtf8, RequestInput;
    SameInputIff(m, path, body, m2, path2, body2);
    var front := m + ([0] + path);
    var s := m + ([0] + (path + ([0] + body)));
    assert s == front + ([0] + body);
    FirstNulAt(m, path + ([0] + body));
    assert forall i | |m| < i < |front| :: s[i] == path[i - |m| - 1] && path[i - |m| - 1] in path;
    assert |m2| > |m|;
    if |m2| == |front| {
      assert body[|path2|] == 0 && body[..|path2|] == path2;
    } else {
      var k := |m2| - |front| - 1;
      assert m2 == front + [0] + body[..k] && body[k] == 0;
      Utf8Splits(front, 0, body[..k]);
    }
  }

  lemma NulInPath(m: Bytes, path: Bytes, body: Bytes, i: nat)
    requires 0 !in m && IsUtf8(path) && i < |path| && path[i] == 0
    ensures IsUtf8(path[..i]) && path[..i] != path
    ensures RequestInput(m, path[..i], path[i + 1..] + ([0] + body)) == RequestInput(m, path, body)
  {
    hide IsUtf8, RequestInput;
    assert path == path[..i] + [0] + path[i + 1..];
    Utf8Splits(path[..i], 0, path[i + 1..]);
    var s := path + ([0] + body);
    assert s[i] == 0 && s[..i] == path[..i] && s[i + 1..] == path[i + 1..] + ([0] + body);
    SameInputOneMethodIff(m, path, body, m, path[..i], path[i + 1..] + ([0] + body));
  }

  lemma NulInBody(m: Bytes, path: Bytes, body: Bytes, j: nat)
    requires 0 !in m && IsUtf8(path) && j < |body| && body[j] == 0 && IsUtf8(body[..j])
    ensures IsUtf8(path + ([0] + body[..j])) && path + ([0] + body[..j]) != path
    ensures RequestInput(m, path + ([0] + body[..j]), body[j + 1..]) == RequestInput(m, path, body)
  {
    hide IsUtf8, RequestInput;
    var longer := path + ([0] + body[..j]);
    assert longer == path + [0] + body[..j];
    Utf8Splits(path, 0, body[..j]);
    var s := path + ([0] + body);
    assert |longer| == |path| + 1 + j && s[|longer|] == body[j] == 0;
    assert s[..|longer|] == longer && s[|longer| + 1..] == body[j + 1..];
    SameInputOneMethodIff(m, path, body, m, longer, body[j + 1..]);
  }

  lemma LongerPath(path: Bytes, body: Bytes, path2: Bytes)
    requires var s := path + ([0] + body);
             |path| < |path2| < |s| && s[|path2|] == 0 && path2 == s[..|path2|] && IsUtf8(path2)
    ensures TextBeforeNul(body)
  {
    hide IsUtf8;
    var j := |path2| - |path| - 1;
    assert path2 == path + [0] + body[..j];
    Utf8Splits(path, 0, body[..j]);
    assert body[j] == (path + ([0] + body))[|path2|];
  }

  lemma OnlySplit(m: Bytes, path: Bytes, body: Bytes, m2: Bytes, path2: Bytes, body2: Bytes)
    requires 0 !in m && 0 !in m2 && IsUtf8(path2) && RequestInput(m2, path2, body2) == RequestInput(m, path, body)
    requires 0 !in path && !TextBeforeNul(body)
    ensures m2 == m && path2 == path && body2 == body
  {
    hide IsUtf8, RequestInput;
    SameInputOneMethodIff(m, path, body, m2, path2, body2);
    var s := path + ([0] + body);
    assert forall i | 0 <= i < |path| :: s[i] == path[i] && path[i] in path;
    assert |path2| >= |path|;
    if |path2| > |path| {
      LongerPath(path, body, path2);
    }
    assert |path2| == |path| ==> path2 == path && body2 == body;
  }

  /** Among requests with NUL-free method and path, the input determines the request. */
  lemma RequestInputIsUnambiguous(m1: Bytes, path1: Bytes, body1: Bytes, m2: Bytes, path2: Bytes, body2: Bytes)
    requires 0 !in m1 && 0 !in m2 && 0 !in path1 && 0 !in path2
    requires RequestInput(m1, path1, body1) == RequestInput(m2, path2, body2)
    ensures m1 == m2 && path1 == path2 && body1 == body2
  {
    RequestTail(m1, path1, body1, m2, path2, body2);
    FirstNulSplits(path1, body1, path2, body2);
  }

  // ------------------------------------------------- the certify of the counter

  /** `TPMS_NV_PUBLIC`, what an index's name is taken over. */
  datatype NvPublic = NvPublic(index: u32, nameAlg: u16, attributes: u32, authPolicy: Bytes, dataSize: u16)

  const STOP_PUBLIC := NvPublic(0x0150_0017, ALG_SHA256, 0x2004_0014, [], 8)

  function PutNvPublic(p: NvPublic): Bytes
    requires Fits2b(p.authPolicy)
  {
    PutU32(p.index) + (PutU16(p.nameAlg) + (PutU32(p.attributes) + (Tpm2b(p.authPolicy) + PutU16(p.dataSize))))
  }

  function StopIndexName(sha: Bytes -> Digest): Bytes {
    PutU16(ALG_SHA256) + sha(PutNvPublic(STOP_PUBLIC))
  }

  /** The certify is bound to `qualifying`, over the named index, all 8 bytes from offset 0, and
      reads `epoch`. */
  predicate CertifiesCounter(attest: Bytes, qualifying: Bytes, indexName: Bytes, epoch: u64) {
    match DecodeNvAttest(attest)
    case None => false
    case Some(a) =>
      && a.head.extraData == qualifying
      && a.indexName == indexName
      && a.offset == 0
      && a.contents == PutU64(epoch)
  }

  method CheckCounterCertify(attest: Bytes, qualifying: Bytes, indexName: Bytes, epoch: u64) returns (ok: bool)
    ensures ok <==> CertifiesCounter(attest, qualifying, indexName, epoch)
  {
    var i := ParseNvAttest(attest);
    if i.None? || i.value.head.extraData != qualifying || i.value.indexName != indexName {
      return false;
    }
    if i.value.offset != 0 || |i.value.contents| != 8 {
      return false;
    }
    PutGet64(i.value.contents);
    GetPut64(epoch);
    return GetU64(i.value.contents) == epoch;
  }

  /** An index defined in any other way has another public area, so its name is another one
      unless SHA-256 collides. */
  lemma NvPublicInjective(p: NvPublic, q: NvPublic)
    requires Fits2b(p.authPolicy) && Fits2b(q.authPolicy) && PutNvPublic(p) == PutNvPublic(q)
    ensures p == q
  {
    var s := PutNvPublic(p);
    var p3, q3 := Tpm2b(p.authPolicy) + PutU16(p.dataSize), Tpm2b(q.authPolicy) + PutU16(q.dataSize);
    assert s[..4] == PutU32(p.index) == PutU32(q.index);
    assert s[4..6] == PutU16(p.nameAlg) == PutU16(q.nameAlg);
    assert s[6..10] == PutU32(p.attributes) == PutU32(q.attributes);
    assert s[10..] == p3 == q3;
    GetPut32(p.index); GetPut32(q.index);
    GetPut16(p.nameAlg); GetPut16(q.nameAlg);
    GetPut32(p.attributes); GetPut32(q.attributes);
    Tpm2bPut(p.authPolicy, PutU16(p.dataSize));
    Tpm2bPut(q.authPolicy, PutU16(q.dataSize));
    GetPut16(p.dataSize); GetPut16(q.dataSize);
  }
}
