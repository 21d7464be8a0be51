/** The verifier's two checks: one receipt, and two receipts with a stop held from one to the other. */
module StopVerify {
  import opened Bytes
  import opened TpmWire
  import opened Envelope
  import opened StopCodec

  /** SHA-256, and whether a signature decodes and verifies under the device's AK. */
  datatype Crypto = Crypto(sha: Bytes -> Digest, ak: (Bytes, Bytes) -> bool)

  ghost predicate Collision(sha: Bytes -> Digest, a: Bytes, b: Bytes) {
    a != b && sha(a) == sha(b)
  }

  /** The device's entry in the verifier's list, and the challenge sent, if one was. */
  datatype Trust = Trust(deviceId: Bytes, pcrSelection: Bytes, pcrComposite: Bytes, nonce: Option<Bytes>)

  datatype StopFinding = StopFinding(
    kind: Kind, state: State, stopEpoch: u64, policyDigest: Digest, bound: bool, clock: Clock)
  {
    function Basis(): StopBasis {
      if stopEpoch % 2 == 1 then Counter else if state.Stopped? then NoRelease else RunningBasis
    }
  }

  datatype StopBasis = Counter | NoRelease | RunningBasis

  /** One value per step of the check, in the order the steps run. */
  datatype Refusal =
    | Container | MessageLayout | QuoteLayout | QuoteSignature | QuoteBinding | QuoteBanks | QuoteDigest
    | OtherSelection | OtherBuild | OtherDevice | EvidenceBinding | BundleLayout | BundleSections
    | RecordLayout | OtherEpoch | NonceMismatch | NonceKind | CertifyLayout | CertifySignature
    | CertifyContent | OddRunning | TwoBoots

  // ---------------------------------------------------------- bundle sections

  /** The three places a stop receipt's sections have. */
  datatype Slots = Slots(record: Option<Bytes>, certify: Option<Bytes>, nonce: Option<Bytes>)

  function Place(slots: Slots, s: Section): Option<Slots> {
    if s.tag == TAG_STOP_STATE && slots.record.None? then Some(slots.(record := Some(s.body)))
    else if s.tag == TAG_TPM_NV_CERTIFY && slots.certify.None? then Some(slots.(certify := Some(s.body)))
    else if s.tag == TAG_VERIFIER_NONCE && slots.nonce.None? then Some(slots.(nonce := Some(s.body)))
    else None
  }

  function PlaceAll(slots: Slots, ss: seq<Section>): Option<Slots>
    decreases |ss|
  {
    if ss == [] then Some(slots) else
      var next :- Place(slots, ss[0]);
      PlaceAll(next, ss[1..])
  }

  /** A slot holds the body of the one section of its tag, or nothing when there is none. */
  ghost predicate Fills(ss: seq<Section>, tag: u16, slot: Option<Bytes>) {
    match slot
    case None => forall j | 0 <= j < |ss| :: ss[j].tag != tag
    case Some(body) => exists i :: 0 <= i < |ss| && ss[i] == Section(tag, body) && OnlyOne(ss, i)
  }

  ghost predicate OnlyOne(ss: seq<Section>, i: nat)
    requires i < |ss|
  {
    forall j | 0 <= j < |ss| && j != i :: ss[j].tag != ss[i].tag
  }

  /** No section has a tag without a place in a receipt. */
  ghost predicate OnlyKnown(ss: seq<Section>) {
    forall j | 0 <= j < |ss| :: ss[j].tag in {TAG_STOP_STATE, TAG_TPM_NV_CERTIFY, TAG_VERIFIER_NONCE}
  }

  ghost predicate NoTagTwice(ss: seq<Section>) {
    forall i, j | 0 <= i < j < |ss| :: ss[i].tag != ss[j].tag
  }

  /** A slot that is filled already stays, and none of the sections may be its. */
  ghost predicate Joins(before: Option<Bytes>, ss: seq<Section>, tag: u16, after: Option<Bytes>) {
    if before.Some? then after == before && Fills(ss, tag, None) else Fills(ss, tag, after)
  }

  /** One section in front. */
  lemma JoinsFront(before: Option<Bytes>, ss: seq<Section>, tag: u16, after: Option<Bytes>)
    requires ss != []
    ensures Joins(before, ss, tag, after) <==>
            if ss[0].tag != tag then Joins(before, ss[1..], tag, after)
            else before.None? && Joins(Some(ss[0].body), ss[1..], tag, after)
  {
    var t := ss[1..];
    assert forall j | 0 < j < |ss| :: ss[j] == t[j - 1];
    if ss[0].tag != tag {
      if Fills(t, tag, after) && after.Some? {
        var i :| 0 <= i < |t| && t[i] == Section(tag, after.value) && OnlyOne(t, i);
        assert ss[i + 1] == t[i] && OnlyOne(ss, i + 1);
      }
      if Fills(ss, tag, after) && after.Some? {
        var i :| 0 <= i < |ss| && ss[i] == Section(tag, after.value) && OnlyOne(ss, i);
        assert t[i - 1] == ss[i] && OnlyOne(t, i - 1);
      }
    } else {
      if after == Some(ss[0].body) && Fills(t, tag, None) {
        assert ss[0] == Section(tag, after.value) && OnlyOne(ss, 0);
      }
      if Fills(ss, tag, after) && after.Some? {
        var i :| 0 <= i < |ss| && ss[i] == Section(tag, after.value) && OnlyOne(ss, i);
        assert i == 0;
      }
    }
  }

  lemma {:induction false} PlacedFrom(before: Slots, ss: seq<Section>, after: Slots)
    ensures PlaceAll(before, ss) == Some(after) <==>
            && OnlyKnown(ss)
            && Joins(before.record, ss, TAG_STOP_STATE, after.record)
            && Joins(before.certify, ss, TAG_TPM_NV_CERTIFY, after.certify)
            && Joins(before.nonce, ss, TAG_VERIFIER_NONCE, after.nonce)
    decreases |ss|
  {
    if ss != [] {
      JoinsFront(before.record, ss, TAG_STOP_STATE, after.record);
      JoinsFront(before.certify, ss, TAG_TPM_NV_CERTIFY, after.certify);
      JoinsFront(before.nonce, ss, TAG_VERIFIER_NONCE, after.nonce);
      assert OnlyKnown(ss) <==> OnlyKnown([ss[0]]) && OnlyKnown(ss[1..]) by {
        assert forall j | 0 < j < |ss| :: ss[j] == ss[1..][j - 1];
        assert forall j | 0 <= j < |ss[1..]| :: ss[1..][j] == ss[j + 1];
        assert [ss[0]][0] == ss[0];
      }
      hide Joins, OnlyKnown;
      assert OnlyKnown([ss[0]]) <==> ss[0].tag in {TAG_STOP_STATE, TAG_TPM_NV_CERTIFY, TAG_VERIFIER_NONCE} by {
        KnownAlone(ss[0]);
      }
      var next := Place(before, ss[0]);
      if next.Some? {
        PlacedFrom(next.value, ss[1..], after);
      }
    }
  }

  lemma KnownAlone(s: Section)
    ensures OnlyKnown([s]) <==> s.tag in {TAG_STOP_STATE, TAG_TPM_NV_CERTIFY, TAG_VERIFIER_NONCE}
  {
    assert [s][0] == s;
  }

  /** What the sections of a receipt may be, and what the slots then hold: no unknown tag, at most one section
      of each, and each slot the body of its section. */
  lemma PlacedIff(ss: seq<Section>, slots: Slots)
    ensures PlaceAll(Slots(None, None, None), ss) == Some(slots) <==>
            && OnlyKnown(ss)
            && Fills(ss, TAG_STOP_STATE, slots.record)
            && Fills(ss, TAG_TPM_NV_CERTIFY, slots.certify)
            && Fills(ss, TAG_VERIFIER_NONCE, slots.nonce)
  {
    PlacedFrom(Slots(None, None, None), ss, slots);
  }

  lemma SlotFor(ss: seq<Section>, tag: u16) returns (slot: Option<Bytes>)
    requires NoTagTwice(ss)
    ensures Fills(ss, tag, slot)
  {
    if i :| 0 <= i < |ss| && ss[i].tag == tag {
      slot := Some(ss[i].body);
      assert ss[i] == Section(tag, slot.value) && OnlyOne(ss, i);
    } else {
      slot := None;
    }
  }

  /** The sections are not refused exactly when no tag is unknown and none comes twice. */
  lemma NotRefusedIff(ss: seq<Section>)
    ensures PlaceAll(Slots(None, None, None), ss).Some? <==> OnlyKnown(ss) && NoTagTwice(ss)
  {
    if OnlyKnown(ss) && NoTagTwice(ss) {
      var record := SlotFor(ss, TAG_STOP_STATE);
      var certify := SlotFor(ss, TAG_TPM_NV_CERTIFY);
      var nonce := SlotFor(ss, TAG_VERIFIER_NONCE);
      PlacedIff(ss, Slots(record, certify, nonce));
    }
    if PlaceAll(Slots(None, None, None), ss).Some? {
      var slots := PlaceAll(Slots(None, None, None), ss).value;
      PlacedIff(ss, slots);
      forall i, j | 0 <= i < j < |ss|
        ensures ss[i].tag != ss[j].tag
      {
        AtMostOne(ss, TAG_STOP_STATE, slots.record, i, j);
        AtMostOne(ss, TAG_TPM_NV_CERTIFY, slots.certify, i, j);
        AtMostOne(ss, TAG_VERIFIER_NONCE, slots.nonce, i, j);
      }
    }
  }

  lemma AtMostOne(ss: seq<Section>, tag: u16, slot: Option<Bytes>, i: nat, j: nat)
    requires Fills(ss, tag, slot) && i < j < |ss|
    ensures !(ss[i].tag == tag == ss[j].tag)
  {
    if slot.Some? {
      var k :| 0 <= k < |ss| && ss[k] == Section(tag, slot.value) && OnlyOne(ss, k);
    }
  }

  /** The slots a loop over the sections fills: an unknown tag or a second section of one tag is refused. */
  method FillSlots(sections: seq<Section>) returns (r: Option<Slots>)
    ensures r == PlaceAll(Slots(None, None, None), sections)
  {
    var record, certify, nonce := None, None, None;
    for i := 0 to |sections|
      invariant PlaceAll(Slots(None, None, None), sections) == PlaceAll(Slots(record, certify, nonce), sections[i..])
    {
      var s := sections[i];
      assert sections[i..][0] == s && sections[i..][1..] == sections[i + 1..];
      if s.tag == TAG_STOP_STATE && record.None? {
        record := Some(s.body);
      } else if s.tag == TAG_TPM_NV_CERTIFY && certify.None? {
        certify := Some(s.body);
      } else if s.tag == TAG_VERIFIER_NONCE && nonce.None? {
        nonce := Some(s.body);
      } else {
        return None;
      }
    }
    return Some(Slots(record, certify, nonce));
  }

  // -------------------------------------------------------------- the receipt

  /** One PCR bank, and it is the message's selection. */
  predicate OneBank(banks: PcrBanks, selection: Bytes)
    requires banks.Valid()
  {
    banks.count == 1 && PutU16(banks.Entries()[0].alg) + banks.Entries()[0].bits == selection
  }

  /** The nonce bytes the certify is bound to, or why the receipt does not answer this challenge. */
  function NonceOf(want: Option<Bytes>, got: Option<Bytes>): Option<Bytes> {
    match (want, got)
    case (Some(w), Some(g)) => if NonceFits(g) && g == w then Some(g) else None
    case (None, None) => Some([])
    case _ => None
  }

  /** With a challenge the receipt must carry exactly it, of a permitted length; without one, none. */
  lemma NonceOfIff(want: Option<Bytes>, got: Option<Bytes>, n: Bytes)
    ensures NonceOf(want, got) == Some(n) <==>
            || (want.None? && got.None? && n == [])
            || (want == got == Some(n) && NONCE_MIN <= |n| <= NONCE_MAX)
  {
  }

  function VerifyStopReceipt(cr: Crypto, receipt: Bytes, t: Trust): Result<StopFinding, Refusal> {
    match DecodeReceipt(receipt)
    case None => Err(Container)
    case Some(r) =>
      match DecodeMessage(r.msg)
      case None => Err(MessageLayout)
      case Some(msg) => VerifyQuote(cr, r, msg, t)
  }

  function VerifyQuote(cr: Crypto, r: Receipt, msg: Message, t: Trust): Result<StopFinding, Refusal>
    requires msg.Valid()
  {
    match DecodeQuote(r.quoteAttest)
    case None => Err(QuoteLayout)
    case Some(q) =>
      QuoteTook(r.quoteAttest);
      if !cr.ak(r.quoteAttest, r.quoteSig) then Err(QuoteSignature)
      else if q.head.extraData != cr.sha(QuoteInput(r.msg)) then Err(QuoteBinding)
      else if !OneBank(q.pcrBanks, msg.pcrSelection) then Err(QuoteBanks)
      else if q.pcrDigest != msg.pcrHash then Err(QuoteDigest)
      else if msg.pcrSelection != t.pcrSelection then Err(OtherSelection)
      else if msg.pcrHash != t.pcrComposite then Err(OtherBuild)
      else if msg.deviceId != t.deviceId then Err(OtherDevice)
      else if cr.sha(r.bundle) != msg.evidenceHash then Err(EvidenceBinding)
      else
        match DecodeBundle(r.bundle)
        case None => Err(BundleLayout)
        case Some(ss) =>
          match PlaceAll(Slots(None, None, None), ss)
          case None => Err(BundleSections)
          case Some(slots) => VerifySections(cr, slots, msg.counter, q.head.clock, t.nonce)
  }

  function VerifySections(cr: Crypto, slots: Slots, counter: u64, quoted: Clock, want: Option<Bytes>)
    : Result<StopFinding, Refusal>
  {
    if slots.record.None? then Err(BundleSections) else
      match DecodeRecord(slots.record.value)
      case None => Err(RecordLayout)
      case Some(record) =>
        if record.stopEpoch != counter then Err(OtherEpoch) else
          match NonceOf(want, slots.nonce)
          case None => Err(NonceMismatch)
          case Some(nonce) =>
            if nonce != [] && !record.kind.Status? then Err(NonceKind)
            else if slots.certify.None? then Err(BundleSections)
            else VerifyCertify(cr, slots.record.value, record, nonce, slots.certify.value, quoted)
  }

  function VerifyCertify(cr: Crypto, body: Bytes, record: StopRecord, nonce: Bytes, certify: Bytes, quoted: Clock)
    : Result<StopFinding, Refusal>
  {
    match DecodeCertify(certify)
    case None => Err(CertifyLayout)
    case Some(c) =>
      if !cr.ak(c.attest, c.sig) then Err(CertifySignature)
      else if !CertifiesCounter(c.attest, cr.sha(CertifyInput(body, nonce)), StopIndexName(cr.sha),
                                record.stopEpoch) then
        Err(CertifyContent)
      else if record.stopEpoch % 2 == 1 && record.state.Running? then Err(OddRunning)
      else
        var clock := DecodeNvAttest(c.attest).value.head.clock;
        if !clock.SameBoot(quoted) then Err(TwoBoots)
        else Ok(StopFinding(record.kind, record.state, record.stopEpoch, record.policyDigest, nonce != [], clock))
  }

  /** The check as it runs: parsers over cursors, slots filled in a loop, refusals in order. */
  method CheckStopReceipt(cr: Crypto, receipt: Bytes, t: Trust) returns (f: Result<StopFinding, Refusal>)
    ensures f == VerifyStopReceipt(cr, receipt, t)
  {
    var container := ParseReceipt(receipt);
    if container.None? {
      return Err(Container);
    }
    var r := container.value;
    var message := DecodeMessage(r.msg);
    if message.None? {
      return Err(MessageLayout);
    }
    var msg := message.value;
    var quote := ParseQuote(r.quoteAttest);
    if quote.None? {
      return Err(QuoteLayout);
    }
    QuoteTook(r.quoteAttest);
    var q := quote.value;
    if !cr.ak(r.quoteAttest, r.quoteSig) {
      return Err(QuoteSignature);
    }
    if q.head.extraData != cr.sha(QuoteInput(r.msg)) {
      return Err(QuoteBinding);
    }
    var banks := IterBanks(q.pcrBanks);
    if q.pcrBanks.count != 1 || PutU16(banks[0].alg) + banks[0].bits != msg.pcrSelection {
      return Err(QuoteBanks);
    }
    if q.pcrDigest != msg.pcrHash {
      return Err(QuoteDigest);
    }
    if msg.pcrSelection != t.pcrSelection {
      return Err(OtherSelection);
    }
    if msg.pcrHash != t.pcrComposite {
      return Err(OtherBuild);
    }
    if msg.deviceId != t.deviceId {
      return Err(OtherDevice);
    }
    if cr.sha(r.bundle) != msg.evidenceHash {
      return Err(EvidenceBinding);
    }
    var sections := ParseBundle(r.bundle);
    if sections.None? {
      return Err(BundleLayout);
    }
    var slots := FillSlots(sections.value);
    if slots.None? || slots.value.record.None? {
      return Err(BundleSections);
    }
    f := CheckSections(cr, slots.value, msg.counter, q.head.clock, t.nonce);
  }

  method CheckSections(cr: Crypto, slots: Slots, counter: u64, quoted: Clock, want: Option<Bytes>)
    returns (f: Result<StopFinding, Refusal>)
    requires slots.record.Some?
    ensures f == VerifySections(cr, slots, counter, quoted, want)
  {
    var body := slots.record.value;
    var parsed := DecodeRecord(body);
    if parsed.None? {
      return Err(RecordLayout);
    }
    var record := parsed.value;
    if record.stopEpoch != counter {
      return Err(OtherEpoch);
    }
    var answered := NonceOf(want, slots.nonce);
    if answered.None? {
      return Err(NonceMismatch);
    }
    var nonce := answered.value;
    if nonce != [] && !record.kind.Status? {
      return Err(NonceKind);
    }
    if slots.certify.None? {
      return Err(BundleSections);
    }
    var certify := ParseCertify(slots.certify.value);
    if certify.None? {
      return Err(CertifyLayout);
    }
    var c := certify.value;
    if !cr.ak(c.attest, c.sig) {
      return Err(CertifySignature);
    }
    var states := CheckCounterCertify(c.attest, cr.sha(CertifyInput(body, nonce)), StopIndexName(cr.sha),
                                      record.stopEpoch);
    if !states {
      return Err(CertifyContent);
    }
    if record.stopEpoch % 2 == 1 && record.state.Running? {
      return Err(OddRunning);
    }
    var info := ParseNvAttest(c.attest);
    var clock := info.value.head.clock;
    if !clock.SameBoot(quoted) {
      return Err(TwoBoots);
    }
    return Ok(StopFinding(record.kind, record.state, record.stopEpoch, record.policyDigest, nonce != [], clock));
  }

  // -------------------------------------------------------- the order of the checks

  /** What a receipt parses into, as far as it does, and the nonce bytes if they answer the challenge. */
  datatype Pieces = Pieces(
    receipt: Option<Receipt>, msg: Option<Message>, quote: Option<Quote>, sections: Option<seq<Section>>,
    slots: Slots, foreign: bool, record: Option<StopRecord>, nonce: Option<Bytes>, certify: Option<NvCertify>,
    nv: Option<NvAttest>)

  function PiecesOf(receipt: Bytes, t: Trust): Pieces {
    var r := DecodeReceipt(receipt);
    var ss := if r.Some? then DecodeBundle(r.value.bundle) else None;
    var placed := if ss.Some? then PlaceAll(Slots(None, None, None), ss.value) else None;
    var slots := if placed.Some? then placed.value else Slots(None, None, None);
    var certify := if slots.certify.Some? then DecodeCertify(slots.certify.value) else None;
    Pieces(r,
           if r.Some? then DecodeMessage(r.value.msg) else None,
           if r.Some? then DecodeQuote(r.value.quoteAttest) else None,
           ss, slots, placed.None?,
           if slots.record.Some? then DecodeRecord(slots.record.value) else None,
           NonceOf(t.nonce, slots.nonce), certify,
           if certify.Some? then DecodeNvAttest(certify.value.attest) else None)
  }

  const CHECKS := 23

  /** The checks, each stated on its own; one about a piece holds of a receipt without it. */
  ghost predicate Check(k: nat, cr: Crypto, receipt: Bytes, t: Trust) {
    var p := PiecesOf(receipt, t);
    match k
    case 1 => p.receipt.Some?
    case 2 => p.msg.Some?
    case 3 => p.quote.Some?
    case 4 => p.receipt.Some? ==> cr.ak(p.receipt.value.quoteAttest, p.receipt.value.quoteSig)
    case 5 => p.receipt.Some? && p.quote.Some? ==>
                p.quote.value.head.extraData == cr.sha(QuoteInput(p.receipt.value.msg))
    case 6 => p.quote.Some? && p.msg.Some? ==>
                p.quote.value.pcrBanks.Valid() && OneBank(p.quote.value.pcrBanks, p.msg.value.pcrSelection)
    case 7 => p.quote.Some? && p.msg.Some? ==> p.quote.value.pcrDigest == p.msg.value.pcrHash
    case 8 => p.msg.Some? ==> p.msg.value.pcrSelection == t.pcrSelection
    case 9 => p.msg.Some? ==> p.msg.value.pcrHash == t.pcrComposite
    case 10 => p.msg.Some? ==> p.msg.value.deviceId == t.deviceId
    case 11 => p.receipt.Some? && p.msg.Some? ==> cr.sha(p.receipt.value.bundle) == p.msg.value.evidenceHash
    case 12 => p.sections.Some?
    case 13 => !p.foreign && p.slots.record.Some?
    case 14 => p.record.Some?
    case 15 => p.record.Some? && p.msg.Some? ==> p.record.value.stopEpoch == p.msg.value.counter
    case 16 => p.nonce.Some?
    case 17 => p.nonce.Some? && p.record.Some? && p.nonce.value != [] ==> p.record.value.kind.Status?
    case 18 => p.slots.certify.Some?
    case 19 => p.certify.Some?
    case 20 => p.certify.Some? ==> cr.ak(p.certify.value.attest, p.certify.value.sig)
    case 21 => p.certify.Some? && p.slots.record.Some? && p.record.Some? && p.nonce.Some? ==>
                 CertifiesCounter(p.certify.value.attest, cr.sha(CertifyInput(p.slots.record.value, p.nonce.value)),
                                  StopIndexName(cr.sha), p.record.value.stopEpoch)
    case 22 => p.record.Some? ==> !(p.record.value.stopEpoch % 2 == 1 && p.record.value.state.Running?)
    case 23 => p.nv.Some? && p.quote.Some? ==> p.nv.value.head.clock.SameBoot(p.quote.value.head.clock)
    case _ => true
  }

  function RefusalAt(k: nat): Refusal
    requires 1 <= k <= CHECKS
  {
    match k
    case 1 => Container case 2 => MessageLayout case 3 => QuoteLayout case 4 => QuoteSignature
    case 5 => QuoteBinding case 6 => QuoteBanks case 7 => QuoteDigest case 8 => OtherSelection
    case 9 => OtherBuild case 10 => OtherDevice case 11 => EvidenceBinding case 12 => BundleLayout
    case 13 => BundleSections case 14 => RecordLayout case 15 => OtherEpoch case 16 => NonceMismatch
    case 17 => NonceKind case 18 => BundleSections case 19 => CertifyLayout case 20 => CertifySignature
    case 21 => CertifyContent case 22 => OddRunning case _ => TwoBoots
  }

  /** The first `k - 1` checks hold. */
  ghost predicate HoldsBefore(k: nat, cr: Crypto, receipt: Bytes, t: Trust) {
    forall j | 1 <= j < k :: Check(j, cr, receipt, t)
  }

  lemma FailsInTheQuote(cr: Crypto, receipt: Bytes, t: Trust, k: nat)
    requires 1 <= k <= 11 && HoldsBefore(k, cr, receipt, t)
    ensures !Check(k, cr, receipt, t) ==> VerifyStopReceipt(cr, receipt, t) == Err(RefusalAt(k))
  {
    hide DecodeReceipt, DecodeMessage, DecodeQuote, OneBank, DecodeBundle, PlaceAll, VerifySections, Quote.Valid;
    assert 1 < k ==> Check(1, cr, receipt, t);
    assert 2 < k ==> Check(2, cr, receipt, t);
    assert 3 < k ==> Check(3, cr, receipt, t);
    assert 4 < k ==> Check(4, cr, receipt, t);
    assert 5 < k ==> Check(5, cr, receipt, t);
    assert 6 < k ==> Check(6, cr, receipt, t);
    assert 7 < k ==> Check(7, cr, receipt, t);
    assert 8 < k ==> Check(8, cr, receipt, t);
    assert 9 < k ==> Check(9, cr, receipt, t);
    assert 10 < k ==> Check(10, cr, receipt, t);
    if k > 3 || Check(3, cr, receipt, t) {
      BanksAreValid(receipt, t);
    }
  }

  lemma BanksAreValid(receipt: Bytes, t: Trust)
    ensures var q := PiecesOf(receipt, t).quote; q.Some? ==> q.value.pcrBanks.Valid()
  {
    hide DecodeReceipt, DecodeMessage, DecodeQuote, DecodeBundle, PlaceAll, DecodeRecord, DecodeCertify, DecodeNvAttest;
    var r := DecodeReceipt(receipt);
    if r.Some? && DecodeQuote(r.value.quoteAttest).Some? {
      QuoteTook(r.value.quoteAttest);
    }
  }

  /** With the checks of the quote done, what is left is the check of the sections. */
  lemma PastTheQuote(cr: Crypto, receipt: Bytes, t: Trust)
    requires HoldsBefore(12, cr, receipt, t)
    ensures var p := PiecesOf(receipt, t);
            && p.receipt.Some? && p.msg.Some? && p.quote.Some?
            && VerifyStopReceipt(cr, receipt, t) ==
                 if p.sections.None? then Err(BundleLayout)
                 else if p.foreign then Err(BundleSections)
                 else VerifySections(cr, p.slots, p.msg.value.counter, p.quote.value.head.clock, t.nonce)
  {
    hide DecodeReceipt, DecodeMessage, DecodeQuote, OneBank, DecodeBundle, PlaceAll, VerifySections, Quote.Valid;
    BanksAreValid(receipt, t);
    assert Check(1, cr, receipt, t) && Check(2, cr, receipt, t) && Check(3, cr, receipt, t);
    assert Check(4, cr, receipt, t) && Check(5, cr, receipt, t) && Check(6, cr, receipt, t);
    assert Check(7, cr, receipt, t) && Check(8, cr, receipt, t) && Check(9, cr, receipt, t);
    assert Check(10, cr, receipt, t) && Check(11, cr, receipt, t);
  }

  lemma FailsInTheSections(cr: Crypto, receipt: Bytes, t: Trust, k: nat)
    requires 12 <= k <= 18 && HoldsBefore(k, cr, receipt, t)
    ensures !Check(k, cr, receipt, t) ==> VerifyStopReceipt(cr, receipt, t) == Err(RefusalAt(k))
  {
    hide DecodeReceipt, DecodeMessage, DecodeQuote, OneBank, DecodeBundle, PlaceAll, VerifyStopReceipt, DecodeRecord;
    hide DecodeCertify, DecodeNvAttest, VerifyCertify, NonceOf;
    PastTheQuote(cr, receipt, t);
    assert 12 < k ==> Check(12, cr, receipt, t);
    assert 13 < k ==> Check(13, cr, receipt, t);
    assert 14 < k ==> Check(14, cr, receipt, t);
    assert 15 < k ==> Check(15, cr, receipt, t);
    assert 16 < k ==> Check(16, cr, receipt, t);
    assert 17 < k ==> Check(17, cr, receipt, t);
  }

  lemma PastTheSections(cr: Crypto, receipt: Bytes, t: Trust)
    requires HoldsBefore(19, cr, receipt, t)
    ensures var p := PiecesOf(receipt, t);
            && p.quote.Some? && p.record.Some? && p.nonce.Some? && p.slots.record.Some? && p.slots.certify.Some?
            && VerifyStopReceipt(cr, receipt, t) ==
                 VerifyCertify(cr, p.slots.record.value, p.record.value, p.nonce.value, p.slots.certify.value,
                               p.quote.value.head.clock)
  {
    hide DecodeReceipt, DecodeMessage, DecodeQuote, OneBank, DecodeBundle, PlaceAll, VerifyStopReceipt, DecodeRecord;
    hide DecodeCertify, DecodeNvAttest, VerifyCertify, NonceOf;
    PastTheQuote(cr, receipt, t);
    assert Check(12, cr, receipt, t) && Check(13, cr, receipt, t) && Check(14, cr, receipt, t);
    assert Check(15, cr, receipt, t) && Check(16, cr, receipt, t) && Check(17, cr, receipt, t);
    assert Check(18, cr, receipt, t);
  }

  lemma FailsInTheCertify(cr: Crypto, receipt: Bytes, t: Trust, k: nat)
    requires 19 <= k <= CHECKS && HoldsBefore(k, cr, receipt, t)
    ensures !Check(k, cr, receipt, t) ==> VerifyStopReceipt(cr, receipt, t) == Err(RefusalAt(k))
    ensures k == CHECKS && Check(k, cr, receipt, t) ==> VerifyStopReceipt(cr, receipt, t).Ok?
  {
    hide DecodeReceipt, DecodeMessage, DecodeQuote, OneBank, DecodeBundle, PlaceAll, VerifyStopReceipt, DecodeRecord;
    hide DecodeCertify, DecodeNvAttest, NonceOf, CertifyInput, StopIndexName, PutU64;
    PastTheSections(cr, receipt, t);
    assert 19 < k ==> Check(19, cr, receipt, t);
    assert 20 < k ==> Check(20, cr, receipt, t);
    assert 21 < k ==> Check(21, cr, receipt, t);
    assert 22 < k ==> Check(22, cr, receipt, t);
  }

  /** A receipt is refused for the first check that fails, and accepted when none does. */
  lemma RefusalIsFirstFailure(cr: Crypto, receipt: Bytes, t: Trust, k: nat)
    requires 1 <= k <= CHECKS && HoldsBefore(k, cr, receipt, t)
    ensures !Check(k, cr, receipt, t) ==> VerifyStopReceipt(cr, receipt, t) == Err(RefusalAt(k))
    ensures k == CHECKS && Check(k, cr, receipt, t) ==> VerifyStopReceipt(cr, receipt, t).Ok?
  {
    hide Check, HoldsBefore, VerifyStopReceipt, RefusalAt;
    if k <= 11 {
      FailsInTheQuote(cr, receipt, t, k);
    } else if k <= 18 {
      FailsInTheSections(cr, receipt, t, k);
    } else {
      FailsInTheCertify(cr, receipt, t, k);
    }
  }

  /** The check of the sections, over the sections themselves: one record, each known tag at most once, and
      nothing else. */
  lemma SectionsCheckIff(cr: Crypto, receipt: Bytes, t: Trust)
    requires PiecesOf(receipt, t).sections.Some?
    ensures var ss := PiecesOf(receipt, t).sections.value;
            Check(13, cr, receipt, t) <==>
            OnlyKnown(ss) && NoTagTwice(ss) && exists i :: 0 <= i < |ss| && ss[i].tag == TAG_STOP_STATE
  {
    hide DecodeReceipt, DecodeMessage, DecodeQuote, DecodeBundle, DecodeRecord, DecodeCertify, DecodeNvAttest, PlaceAll;
    var p := PiecesOf(receipt, t);
    NotRefusedIff(p.sections.value);
    if !p.foreign {
      PlacedIff(p.sections.value, p.slots);
    }
  }

  // --------------------------------------------------------- the documented order

  /** The documented step a check belongs to. */
  function DocumentedStep(k: nat): nat
    requires 1 <= k <= CHECKS
  {
    if k <= 2 then 1 else if k <= 4 then 2 else if k == 5 then 3 else if k <= 9 then 4
    else if k == 10 then 5 else if k == 11 then 6 else if k <= 15 || k == 18 then 7
    else if k <= 17 then 9 else if k <= 21 then 8 else if k == 22 then 10 else 11
  }

  /** The failing check `k` is of the first documented step that fails. */
  ghost predicate FirstDocumented(k: nat, cr: Crypto, receipt: Bytes, t: Trust)
    requires 1 <= k <= CHECKS
  {
    forall j | 1 <= j <= CHECKS && !Check(j, cr, receipt, t) :: DocumentedStep(k) <= DocumentedStep(j)
  }

  /** The order run is not the order documented: the nonce, step 9, is checked before the certify, step 8.
      The refusal is that of the first documented step that fails, unless the nonce fails and the certify
      is missing or fails too. */
  lemma DocumentedOrderIff(cr: Crypto, receipt: Bytes, t: Trust, k: nat)
    requires 1 <= k <= CHECKS && HoldsBefore(k, cr, receipt, t) && !Check(k, cr, receipt, t)
    ensures VerifyStopReceipt(cr, receipt, t) == Err(RefusalAt(k))
    ensures FirstDocumented(k, cr, receipt, t) <==>
            !(k in {16, 17} && exists j | 18 <= j <= 21 :: !Check(j, cr, receipt, t))
  {
    RefusalIsFirstFailure(cr, receipt, t, k);
    hide Check, VerifyStopReceipt, RefusalAt;
    if k in {16, 17} {
      forall j | 18 <= j <= 21 && !Check(j, cr, receipt, t)
        ensures !FirstDocumented(k, cr, receipt, t)
      {
        assert DocumentedStep(j) < DocumentedStep(k);
      }
    }
    forall j | 1 <= j <= CHECKS && !Check(j, cr, receipt, t)
      ensures j >= k && ((k in {16, 17} && 18 <= j <= 21) || DocumentedStep(k) <= DocumentedStep(j))
    {
    }
  }

  // --------------------------------------------- what an accepted receipt is

  /** The parts of a receipt that passed. */
  datatype Parts = Parts(
    receipt: Receipt, msg: Message, quote: Quote, slots: Slots, record: StopRecord, nonce: Bytes,
    certify: NvCertify, nv: NvAttest)

  /** Everything one acceptance established, the two signatures included. */
  ghost predicate Passed(cr: Crypto, receipt: Bytes, t: Trust, p: Parts) {
    && DecodeReceipt(receipt) == Some(p.receipt)
    && DecodeMessage(p.receipt.msg) == Some(p.msg)
    && DecodeQuote(p.receipt.quoteAttest) == Some(p.quote) && p.quote.Valid()
    && cr.ak(p.receipt.quoteAttest, p.receipt.quoteSig)
    && p.quote.head.extraData == cr.sha(QuoteInput(p.receipt.msg))
    && OneBank(p.quote.pcrBanks, t.pcrSelection)
    && p.quote.pcrDigest == p.msg.pcrHash == t.pcrComposite
    && p.msg.pcrSelection == t.pcrSelection
    && p.msg.deviceId == t.deviceId
    && p.msg.evidenceHash == cr.sha(p.receipt.bundle)
    && DecodeBundle(p.receipt.bundle).Some?
    && PlaceAll(Slots(None, None, None), DecodeBundle(p.receipt.bundle).value) == Some(p.slots)
    && p.slots.record.Some? && p.slots.certify.Some?
    && DecodeRecord(p.slots.record.value) == Some(p.record)
    && p.record.stopEpoch == p.msg.counter
    && NonceOf(t.nonce, p.slots.nonce) == Some(p.nonce)
    && (p.nonce != [] ==> p.record.kind.Status?)
    && DecodeCertify(p.slots.certify.value) == Some(p.certify)
    && cr.ak(p.certify.attest, p.certify.sig)
    && DecodeNvAttest(p.certify.attest) == Some(p.nv)
    && p.nv.head.extraData == cr.sha(CertifyInput(p.slots.record.value, p.nonce))
    && p.nv.indexName == StopIndexName(cr.sha) && p.nv.offset == 0
    && p.nv.contents == PutU64(p.record.stopEpoch)
    && (p.record.stopEpoch % 2 == 1 ==> p.record.state.Stopped?)
    && p.nv.head.clock.SameBoot(p.quote.head.clock)
  }

  function FindingOf(p: Parts): StopFinding {
    StopFinding(p.record.kind, p.record.state, p.record.stopEpoch, p.record.policyDigest, p.nonce != [],
                p.nv.head.clock)
  }

  /** An accepted receipt has exactly one stop record, exactly one certify, the nonce exactly when there is a
      challenge, and no other section; what was checked are the bodies of these. */
  lemma AcceptedSections(cr: Crypto, receipt: Bytes, t: Trust, p: Parts)
    requires Passed(cr, receipt, t, p)
    ensures var ss := DecodeBundle(p.receipt.bundle).value;
            && OnlyKnown(ss) && NoTagTwice(ss)
            && Fills(ss, TAG_STOP_STATE, p.slots.record) && p.slots.record.Some?
            && Fills(ss, TAG_TPM_NV_CERTIFY, p.slots.certify) && p.slots.certify.Some?
            && Fills(ss, TAG_VERIFIER_NONCE, t.nonce)
    ensures t.nonce.Some? ==> NONCE_MIN <= |t.nonce.value| <= NONCE_MAX
    ensures p.nonce == if t.nonce.Some? then t.nonce.value else []
  {
    hide DecodeReceipt, DecodeMessage, DecodeQuote, DecodeBundle, DecodeRecord, DecodeCertify, DecodeNvAttest;
    hide PlaceAll, OneBank, NonceOf, OnlyKnown, Fills, NoTagTwice;
    var ss := DecodeBundle(p.receipt.bundle).value;
    PlacedIff(ss, p.slots);
    NotRefusedIff(ss);
    NonceOfIff(t.nonce, p.slots.nonce, p.nonce);
  }

  /** Acceptance is exactly this conjunction: no condition is skipped, and no further one is asked. */
  lemma AcceptedIff(cr: Crypto, receipt: Bytes, t: Trust, f: StopFinding)
    ensures VerifyStopReceipt(cr, receipt, t) == Ok(f) <==> exists p :: Passed(cr, receipt, t, p) && f == FindingOf(p)
  {
    if VerifyStopReceipt(cr, receipt, t) == Ok(f) {
      var p := PartsOf(cr, receipt, t);
    }
    if exists p :: Passed(cr, receipt, t, p) && f == FindingOf(p) {
      var p :| Passed(cr, receipt, t, p) && f == FindingOf(p);
      PassedIsAccepted(cr, receipt, t, p);
    }
  }

  lemma PassedIsAccepted(cr: Crypto, receipt: Bytes, t: Trust, p: Parts)
    requires Passed(cr, receipt, t, p)
    ensures VerifyStopReceipt(cr, receipt, t) == Ok(FindingOf(p))
  {
    var body, certify := p.slots.record.value, p.slots.certify.value;
    assert VerifyCertify(cr, body, p.record, p.nonce, certify, p.quote.head.clock) == Ok(FindingOf(p));
    assert VerifySections(cr, p.slots, p.msg.counter, p.quote.head.clock, t.nonce) == Ok(FindingOf(p));
    assert VerifyQuote(cr, p.receipt, p.msg, t) == Ok(FindingOf(p));
  }

  lemma PartsOf(cr: Crypto, receipt: Bytes, t: Trust) returns (p: Parts)
    requires VerifyStopReceipt(cr, receipt, t).Ok?
    ensures Passed(cr, receipt, t, p) && VerifyStopReceipt(cr, receipt, t).value == FindingOf(p)
  {
    var r := DecodeReceipt(receipt).value;
    var msg := DecodeMessage(r.msg).value;
    var q := DecodeQuote(r.quoteAttest).value;
    QuoteTook(r.quoteAttest);
    assert VerifyQuote(cr, r, msg, t).Ok?;
    var slots := PlaceAll(Slots(None, None, None), DecodeBundle(r.bundle).value).value;
    assert VerifySections(cr, slots, msg.counter, q.head.clock, t.nonce).Ok?;
    var record := DecodeRecord(slots.record.value).value;
    var nonce := NonceOf(t.nonce, slots.nonce).value;
    assert VerifyCertify(cr, slots.record.value, record, nonce, slots.certify.value, q.head.clock).Ok?;
    var certify := DecodeCertify(slots.certify.value).value;
    p := Parts(r, msg, q, slots, record, nonce, certify, DecodeNvAttest(certify.attest).value);
  }

  lemma PassedHolds(cr: Crypto, receipt: Bytes, t: Trust, p: Parts, k: nat)
    requires Passed(cr, receipt, t, p)
    ensures Check(k, cr, receipt, t)
  {
    hide DecodeReceipt, DecodeMessage, DecodeQuote, DecodeBundle, DecodeRecord, DecodeCertify, DecodeNvAttest;
    hide PlaceAll, OneBank, NonceOf, CertifyInput, StopIndexName, PutU64;
  }

  /** Where the two orders part: any accepted receipt that answers a challenge, checked for another one and
      under a key that did not sign its certify, is refused for the nonce. */
  lemma NonceBeforeCertify(cr: Crypto, receipt: Bytes, t: Trust, p: Parts, other: Bytes)
    returns (cr2: Crypto, t2: Trust)
    requires Passed(cr, receipt, t, p) && t.nonce.Some? && t.nonce != Some(other)
    ensures t2 == t.(nonce := Some(other)) && VerifyStopReceipt(cr2, receipt, t2) == Err(NonceMismatch)
    ensures HoldsBefore(16, cr2, receipt, t2) && !Check(16, cr2, receipt, t2) && !Check(20, cr2, receipt, t2)
    ensures !FirstDocumented(16, cr2, receipt, t2)
  {
    var quote := p.receipt.quoteAttest;
    cr2 := Crypto(cr.sha, (m: Bytes, sig: Bytes) => m == quote && cr.ak(m, sig));
    t2 := t.(nonce := Some(other));
    NoBytesAreBoth(quote);
    hide DecodeReceipt, DecodeMessage, DecodeQuote, DecodeBundle, DecodeRecord, DecodeCertify, DecodeNvAttest;
    hide PlaceAll, OneBank, CertifyInput, StopIndexName, PutU64, VerifyStopReceipt, CertifiesCounter;
    forall j | 1 <= j < 16
      ensures Check(j, cr2, receipt, t2)
    {
      PassedHolds(cr, receipt, t, p, j);
    }
    DocumentedOrderIff(cr2, receipt, t2, 16);
  }

  /** A receipt answers the challenge it is checked against and no other, and is fresh exactly when
      there was one. */
  lemma AcceptedAnswersItsChallenge(cr: Crypto, receipt: Bytes, t1: Trust, t2: Trust)
    requires VerifyStopReceipt(cr, receipt, t1).Ok? && VerifyStopReceipt(cr, receipt, t2).Ok?
    ensures t1 == t2
    ensures VerifyStopReceipt(cr, receipt, t1).value.bound <==> t1.nonce.Some?
  {
    hide DecodeReceipt, DecodeMessage, DecodeQuote, DecodeBundle, DecodeRecord, DecodeCertify, DecodeNvAttest;
    hide PlaceAll, Quote.Valid, OneBank;
    var p1 := PartsOf(cr, receipt, t1);
    var p2 := PartsOf(cr, receipt, t2);
  }

  /** A quote cannot be lifted into another receipt: accepted receipts with one quote attestation
      carry one message and one bundle, hence one record, certify and nonce, or SHA-256 collided. */
  lemma OneQuoteOneReceipt(cr: Crypto, receipt1: Bytes, t1: Trust, p1: Parts, receipt2: Bytes, t2: Trust, p2: Parts)
    requires Passed(cr, receipt1, t1, p1) && Passed(cr, receipt2, t2, p2)
    requires p1.receipt.quoteAttest == p2.receipt.quoteAttest
    ensures || (p1.msg == p2.msg && p1.slots == p2.slots && p1.record == p2.record && p1.nonce == p2.nonce && t1 == t2)
            || Collision(cr.sha, QuoteInput(p1.receipt.msg), QuoteInput(p2.receipt.msg))
            || Collision(cr.sha, p1.receipt.bundle, p2.receipt.bundle)
  {
    hide DecodeReceipt, DecodeMessage, DecodeQuote, DecodeBundle, DecodeRecord, DecodeCertify, DecodeNvAttest;
    hide PlaceAll, Quote.Valid, OneBank;
    if QuoteInput(p1.receipt.msg) == QuoteInput(p2.receipt.msg) {
      SplitConcat(QUOTE_DOMAIN, p1.receipt.msg, QUOTE_DOMAIN, p2.receipt.msg);
    }
  }

  /** Nor can a certify: accepted receipts with one certify attestation carry one record and one
      nonce, or SHA-256 collided. */
  lemma OneCertifyOneRecord(cr: Crypto, receipt1: Bytes, t1: Trust, p1: Parts, receipt2: Bytes, t2: Trust, p2: Parts)
    requires Passed(cr, receipt1, t1, p1) && Passed(cr, receipt2, t2, p2)
    requires p1.certify.attest == p2.certify.attest
    ensures || (p1.record == p2.record && p1.nonce == p2.nonce && t1.nonce == t2.nonce)
            || Collision(cr.sha, CertifyInput(p1.slots.record.value, p1.nonce),
                         CertifyInput(p2.slots.record.value, p2.nonce))
  {
    if CertifyInput(p1.slots.record.value, p1.nonce) == CertifyInput(p2.slots.record.value, p2.nonce) {
      CertifyInputIsUnambiguous(p1.slots.record.value, p1.nonce, p2.slots.record.value, p2.nonce);
    }
  }

  // ------------------------------------------------------------- the interval

  datatype StopInterval = StopInterval(stopEpoch: u64, from: Clock, to: Clock) {
    /** The difference of the two clocks, as the unsigned subtraction computes it. */
    function HeldMs(): u64 {
      (to.clock - from.clock) % 0x1_0000_0000_0000_0000
    }
  }

  datatype IntervalRefusal =
    | NonceInTrust | SameChallenge | First(why: Refusal) | Second(why: Refusal)
    | FirstNotCounter | SecondNotCounter | CounterMoved | TpmReset | TpmRestarted | NotLater

  function VerifyStopInterval(cr: Crypto, first: Bytes, firstNonce: Bytes, second: Bytes, secondNonce: Bytes, t: Trust)
    : Result<StopInterval, IntervalRefusal>
  {
    if t.nonce.Some? then Err(NonceInTrust)
    else if firstNonce == secondNonce then Err(SameChallenge)
    else
      match VerifyStopReceipt(cr, first, t.(nonce := Some(firstNonce)))
      case Err(e) => Err(First(e))
      case Ok(a) =>
        match VerifyStopReceipt(cr, second, t.(nonce := Some(secondNonce)))
        case Err(e) => Err(Second(e))
        case Ok(b) =>
          if a.Basis() != Counter then Err(FirstNotCounter)
          else if b.Basis() != Counter then Err(SecondNotCounter)
          else if a.stopEpoch != b.stopEpoch then Err(CounterMoved)
          else if a.clock.resetCount != b.clock.resetCount then Err(TpmReset)
          else if a.clock.restartCount != b.clock.restartCount then Err(TpmRestarted)
          else if b.clock.clock <= a.clock.clock then Err(NotLater)
          else Ok(StopInterval(a.stopEpoch, a.clock, b.clock))
  }

  /** What the interval check asks, in its order, of the findings of the two receipts. */
  ghost predicate IntervalCheck(k: nat, cr: Crypto, first: Bytes, n1: Bytes, second: Bytes, n2: Bytes, t: Trust) {
    var a := VerifyStopReceipt(cr, first, t.(nonce := Some(n1)));
    var b := VerifyStopReceipt(cr, second, t.(nonce := Some(n2)));
    match k
    case 1 => t.nonce.None?
    case 2 => n1 != n2
    case 3 => a.Ok?
    case 4 => b.Ok?
    case 5 => a.Ok? ==> a.value.stopEpoch % 2 == 1
    case 6 => b.Ok? ==> b.value.stopEpoch % 2 == 1
    case 7 => a.Ok? && b.Ok? ==> a.value.stopEpoch == b.value.stopEpoch
    case 8 => a.Ok? && b.Ok? ==> a.value.clock.resetCount == b.value.clock.resetCount
    case 9 => a.Ok? && b.Ok? ==> a.value.clock.restartCount == b.value.clock.restartCount
    case 10 => a.Ok? && b.Ok? ==> a.value.clock.clock < b.value.clock.clock
    case _ => true
  }

  predicate IntervalRefusedAt(k: nat, why: IntervalRefusal) {
    match k
    case 1 => why.NonceInTrust? case 2 => why.SameChallenge? case 3 => why.First? case 4 => why.Second?
    case 5 => why.FirstNotCounter? case 6 => why.SecondNotCounter? case 7 => why.CounterMoved?
    case 8 => why.TpmReset? case 9 => why.TpmRestarted? case _ => why.NotLater?
  }

  /** An interval is refused for the first of these that fails, and when none does, it is accepted with the
      value and the two clocks of its receipts. */
  lemma IntervalRefusalIsFirstFailure(cr: Crypto, first: Bytes, n1: Bytes, second: Bytes, n2: Bytes, t: Trust, k: nat)
    requires 1 <= k <= 10 && forall j | 1 <= j < k :: IntervalCheck(j, cr, first, n1, second, n2, t)
    ensures var v := VerifyStopInterval(cr, first, n1, second, n2, t);
            var a := VerifyStopReceipt(cr, first, t.(nonce := Some(n1)));
            var b := VerifyStopReceipt(cr, second, t.(nonce := Some(n2)));
            && (!IntervalCheck(k, cr, first, n1, second, n2, t) ==> v.Err? && IntervalRefusedAt(k, v.error))
            && (k == 10 && IntervalCheck(10, cr, first, n1, second, n2, t) ==>
                  a.Ok? && b.Ok? && v == Ok(StopInterval(a.value.stopEpoch, a.value.clock, b.value.clock)))
  {
    hide VerifyStopReceipt;
    assert 1 < k ==> IntervalCheck(1, cr, first, n1, second, n2, t);
    assert 2 < k ==> IntervalCheck(2, cr, first, n1, second, n2, t);
    assert 3 < k ==> IntervalCheck(3, cr, first, n1, second, n2, t);
    assert 4 < k ==> IntervalCheck(4, cr, first, n1, second, n2, t);
    assert 5 < k ==> IntervalCheck(5, cr, first, n1, second, n2, t);
    assert 6 < k ==> IntervalCheck(6, cr, first, n1, second, n2, t);
    assert 7 < k ==> IntervalCheck(7, cr, first, n1, second, n2, t);
    assert 8 < k ==> IntervalCheck(8, cr, first, n1, second, n2, t);
    assert 9 < k ==> IntervalCheck(9, cr, first, n1, second, n2, t);
  }

  /** What an accepted interval says of its two receipts; in particular the unsigned subtraction of
      `held_ms` does not wrap, and the two receipts are two. */
  lemma IntervalParts(cr: Crypto, first: Bytes, n1: Bytes, second: Bytes, n2: Bytes, t: Trust)
    returns (p1: Parts, p2: Parts)
    requires VerifyStopInterval(cr, first, n1, second, n2, t).Ok?
    ensures Passed(cr, first, t.(nonce := Some(n1)), p1) && Passed(cr, second, t.(nonce := Some(n2)), p2)
    ensures var v := VerifyStopInterval(cr, first, n1, second, n2, t).value;
            && v.stopEpoch % 2 == 1
            && p1.record.stopEpoch == p2.record.stopEpoch == v.stopEpoch
            && v.from == p1.nv.head.clock && v.to == p2.nv.head.clock
            && v.from.SameBoot(v.to)
            && v.from.clock + v.HeldMs() == v.to.clock && v.HeldMs() > 0
    ensures first != second
  {
    hide DecodeReceipt, DecodeMessage, DecodeQuote, DecodeBundle, DecodeRecord, DecodeCertify, DecodeNvAttest;
    hide PlaceAll, Quote.Valid, OneBank;
    p1 := PartsOf(cr, first, t.(nonce := Some(n1)));
    p2 := PartsOf(cr, second, t.(nonce := Some(n2)));
  }
}
