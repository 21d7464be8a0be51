/** Gate 1: authenticity and evidence binding of an agent envelope, v1 and v2. */
module Gate1 {
  import opened Bytes
  import opened TpmWire
  import opened Envelope
  import opened StopCodec
  import opened StopVerify
  import opened StopRuns

  /** A device known to the verifier; `verifies` decodes a signature and checks it. */
  datatype TrustEntry =
    | Legacy(verifies: (Bytes, Bytes) -> bool)
    | Ak(verifies: (Bytes, Bytes) -> bool)

  datatype Binding = SelfSigned | TpmQuote

  datatype QuoteMeta = QuoteMeta(clock: Clock, firmwareVersion: u64)

  datatype Authenticated = Authenticated(
    deviceId: Bytes, counter: u64, pcrSelection: Bytes, pcrHash: Bytes, evidence: Bytes,
    binding: Binding, quoteMeta: Option<QuoteMeta>)

  datatype Gate1Reject = Malformed | UnknownDevice | SignatureFail | EvidenceBindingFail | QuoteBindingFail

  /** One envelope as it arrives; `attest` is present in the v2 form. */
  datatype Presented = Presented(msg: Bytes, attest: Option<Bytes>, sig: Bytes, evidence: Bytes)

  function AuthenticateEnvelope(sha: Bytes -> Digest, e: Presented, entryFor: Bytes -> Option<TrustEntry>)
    : Result<Authenticated, Gate1Reject>
  {
    match DecodeMessage(e.msg)
    case None => Err(Malformed)
    case Some(msg) =>
      match entryFor(msg.deviceId)
      case None => Err(UnknownDevice)
      case Some(entry) =>
        match (entry, e.attest)
        case (Legacy(verifies), None) =>
          if !verifies(e.msg, e.sig) then Err(SignatureFail)
          else BindEvidence(sha, e, msg, None)
        case (Ak(verifies), Some(attest)) =>
          (match DecodeQuote(attest)
           case None => Err(Malformed)
           case Some(q) =>
             QuoteTook(attest);
             if !verifies(attest, e.sig) then Err(SignatureFail)
             else if q.head.extraData != sha(e.msg) then Err(QuoteBindingFail)
             else if !OneBank(q.pcrBanks, msg.pcrSelection) || q.pcrDigest != msg.pcrHash then Err(QuoteBindingFail)
             else BindEvidence(sha, e, msg, Some(QuoteMeta(q.head.clock, q.firmwareVersion))))
        case (Ak(_), None) => Err(QuoteBindingFail)
        case (Legacy(_), Some(_)) => Err(QuoteBindingFail)
  }

  function BindEvidence(sha: Bytes -> Digest, e: Presented, msg: Message, meta: Option<QuoteMeta>)
    : Result<Authenticated, Gate1Reject>
  {
    if sha(e.evidence) != msg.evidenceHash then Err(EvidenceBindingFail)
    else Ok(Authenticated(msg.deviceId, msg.counter, msg.pcrSelection, msg.pcrHash, e.evidence,
                          if meta.Some? then TpmQuote else SelfSigned, meta))
  }

  // --------------------------------------------------------- the documented order

  /** The eight steps, each stated on its own; a step about the quote holds of an envelope without one. */
  ghost predicate StepHolds(k: nat, sha: Bytes -> Digest, e: Presented, entryFor: Bytes -> Option<TrustEntry>) {
    var msg := DecodeMessage(e.msg);
    var entry := if msg.Some? then entryFor(msg.value.deviceId) else None;
    var quote := if e.attest.Some? then DecodeQuote(e.attest.value) else None;
    match k
    case 1 => msg.Some?
    case 2 => entry.Some?
    case 3 => entry.Some? && (entry.value.Ak? <==> e.attest.Some?)
    case 4 => e.attest.Some? ==> quote.Some?
    case 5 => entry.Some? && entry.value.verifies(if e.attest.Some? then e.attest.value else e.msg, e.sig)
    case 6 => quote.Some? ==> quote.value.head.extraData == sha(e.msg)
    case 7 => quote.Some? && msg.Some? ==>
                quote.value.pcrBanks.Valid() && OneBank(quote.value.pcrBanks, msg.value.pcrSelection) &&
                quote.value.pcrDigest == msg.value.pcrHash
    case 8 => msg.Some? ==> sha(e.evidence) == msg.value.evidenceHash
    case _ => true
  }

  /** The reject class each step documents. */
  function ClassOf(k: nat): Gate1Reject
    requires 1 <= k <= 8
  {
    match k
    case 1 => Malformed
    case 2 => UnknownDevice
    case 3 => QuoteBindingFail
    case 4 => Malformed
    case 5 => SignatureFail
    case 6 => QuoteBindingFail
    case 7 => QuoteBindingFail
    case _ => EvidenceBindingFail
  }

  /** The reject class is that of the first failing step, and an envelope passes when none fails. In
      particular no field is looked at on the strength of a signature that did not verify. */
  lemma RejectIsFirstFailure(sha: Bytes -> Digest, e: Presented, entryFor: Bytes -> Option<TrustEntry>, k: nat)
    requires 1 <= k <= 8 && forall j | 1 <= j < k :: StepHolds(j, sha, e, entryFor)
    ensures !StepHolds(k, sha, e, entryFor) ==> AuthenticateEnvelope(sha, e, entryFor) == Err(ClassOf(k))
    ensures k == 8 && StepHolds(8, sha, e, entryFor) ==> AuthenticateEnvelope(sha, e, entryFor).Ok?
  {
    hide DecodeMessage, DecodeQuote, OneBank;
    assert 1 < k ==> StepHolds(1, sha, e, entryFor);
    assert 2 < k ==> StepHolds(2, sha, e, entryFor);
    assert 3 < k ==> StepHolds(3, sha, e, entryFor);
    assert 4 < k ==> StepHolds(4, sha, e, entryFor);
    assert 5 < k ==> StepHolds(5, sha, e, entryFor);
    assert 6 < k ==> StepHolds(6, sha, e, entryFor);
    assert 7 < k ==> StepHolds(7, sha, e, entryFor);
    if e.attest.Some? && DecodeQuote(e.attest.value).Some? {
      QuoteTook(e.attest.value);
    }
  }

  // ----------------------------------------------------------------- results

  /** No downgrade: the binding is the trust entry's, never the envelope's choice. An AK accepts only
      with a quote, a legacy key only without. */
  lemma BindingIsTheEntrys(sha: Bytes -> Digest, e: Presented, entryFor: Bytes -> Option<TrustEntry>)
    requires AuthenticateEnvelope(sha, e, entryFor).Ok?
    ensures var a := AuthenticateEnvelope(sha, e, entryFor).value;
            && entryFor(a.deviceId).Some?
            && (a.binding == TpmQuote <==> entryFor(a.deviceId).value.Ak?)
            && (a.binding == TpmQuote <==> e.attest.Some?) && (a.binding == TpmQuote <==> a.quoteMeta.Some?)
            && a.evidence == e.evidence
            && DecodeMessage(e.msg) == Some(Message(a.deviceId, a.counter, a.pcrSelection, a.pcrHash, sha(e.evidence)))
  {
  }

  /** A v2 envelope rests on a quote the TPM made: over this message, with the PCR digest the TPM
      itself computed over the one bank the message names, at the clock carried along. */
  lemma V2RestsOnATpmQuote(site: Site, run: Run, e: Presented, entryFor: Bytes -> Option<TrustEntry>) returns (q: nat)
    requires AuthenticateEnvelope(site.sha, e, entryFor).Ok? && ValidRun(site, run)
    requires AuthenticateEnvelope(site.sha, e, entryFor).value.binding == TpmQuote
    requires var entry := entryFor(AuthenticateEnvelope(site.sha, e, entryFor).value.deviceId);
             entry.Some? ==> Unforgeable(site, run, entry.value.verifies)
    ensures var a := AuthenticateEnvelope(site.sha, e, entryFor).value;
            && SignedAt(site, run, q, e.attest.value) && run.steps[q].MakeQuote?
            && run.steps[q].qualifying == site.sha(e.msg)
            && OneBank(run.steps[q].banks, a.pcrSelection)
            && a.quoteMeta == Some(QuoteMeta(run.states[q].clock, run.steps[q].firmware))
            && (|a.pcrSelection| == 5 && a.pcrSelection[..2] == PutU16(ALG_SHA256) ==>
                  Composite(site.sha, run.states[q].pcrs, a.pcrSelection[2..]) == a.pcrHash)
  {
    hide DecodeMessage, DecodeQuote;
    var a := AuthenticateEnvelope(site.sha, e, entryFor).value;
    var attest := e.attest.value;
    q :| SignedAt(site, run, q, attest);
    QuoteCameFromTheTpm(site, run, q, attest);
    if |a.pcrSelection| == 5 && a.pcrSelection[..2] == PutU16(ALG_SHA256) {
      var bank := run.steps[q].banks.Entries()[0];
      SplitConcat(PutU16(bank.alg), bank.bits, a.pcrSelection[..2], a.pcrSelection[2..]);
      GetPut16(bank.alg);
      GetPut16(ALG_SHA256);
    }
  }

  /** No quote serves both purposes: one attestation that authenticates an agent envelope and passes
      in a stop receipt is a SHA-256 collision. */
  lemma NoQuoteServesBoth(cr: Crypto, receipt: Bytes, t: Trust, p: Parts, e: Presented,
                          entryFor: Bytes -> Option<TrustEntry>)
    requires Passed(cr, receipt, t, p)
    requires AuthenticateEnvelope(cr.sha, e, entryFor).Ok? && e.attest == Some(p.receipt.quoteAttest)
    ensures Collision(cr.sha, QuoteInput(p.receipt.msg), e.msg)
  {
    hide DecodeReceipt, DecodeQuote, DecodeBundle, DecodeRecord, DecodeCertify, DecodeNvAttest, PlaceAll, OneBank;
    QuoteInputIsNoMessage(p.receipt.msg, e.msg);
  }
}
