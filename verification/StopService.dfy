/** `sign`, `status` and `admit`: what the service hands out, and that the verifier takes it. */
module StopService {
  import opened Bytes
  import opened TpmWire
  import opened Envelope
  import opened StopCodec
  import opened StopVerify
  import opened StopRuns
  import opened StopDevice

  /** Fixed context of one service instance. The PCR selection is over the sha256 bank. */
  datatype Ctx = Ctx(deviceId: Bytes, pcrBitmap: Bytes, policyDigest: Digest, stopIndexName: Bytes) {
    function Selection(): Bytes
      requires |pcrBitmap| == 3
    {
      PutSelection(ALG_SHA256, pcrBitmap)
    }
  }

  /** Who makes receipts: a service instance on a site, with the signatures its AK emits. */
  datatype Maker = Maker(site: Site, sign: Bytes -> Bytes, ctx: Ctx)

  /** The sections of a receipt's bundle, in the order `sign` pushes them. */
  function SectionsOf(record: Bytes, certify: Bytes, nonce: Bytes): seq<Section> {
    [Section(TAG_STOP_STATE, record), Section(TAG_TPM_NV_CERTIFY, certify)] +
    (if nonce == [] then [] else [Section(TAG_VERIFIER_NONCE, nonce)])
  }

  /** What the bundle of a receipt for `rec` and `nonce` holds: the record, a certify the TPM signed
      at step c and the service checked, and the nonce if there is one. */
  ghost predicate Bundled(maker: Maker, run: Run, rec: StopRecord, nonce: Bytes, bundle: Bytes, k: NvCertify, c: nat) {
    && rec.Encodable() && k.Encodable()
    && SignedAt(maker.site, run, c, k.attest) && k.sig == maker.sign(k.attest)
    && CertifiesCounter(k.attest, maker.site.sha(CertifyInput(PutRecord(rec), nonce)), maker.ctx.stopIndexName,
                        rec.stopEpoch)
    && AllValid(SectionsOf(PutRecord(rec), PutCertify(k), nonce))
    && bundle == PutBundle(SectionsOf(PutRecord(rec), PutCertify(k), nonce))
  }

  /** A message over the PCRs read at state r and the quote of it signed at step q. */
  ghost predicate Quoted(maker: Maker, run: Run, epoch: u64, p: Receipt, r: nat, q: nat) {
    var sha, ctx := maker.site.sha, maker.ctx;
    && |ctx.pcrBitmap| == 3
    && r <= q < |run.steps| < |run.states| && run.states[r].Valid()
    && p.msg == PutMessage(Canonical(sha, ctx.deviceId, epoch, ctx.Selection(),
                                     SelectedValues(sha, run.states[r].pcrs, ctx.pcrBitmap, PCRS), p.bundle))
    && SignedAt(maker.site, run, q, p.quoteAttest) && p.quoteSig == maker.sign(p.quoteAttest)
    && run.steps[q].MakeQuote? && run.steps[q].qualifying == sha(QuoteInput(p.msg))
    && run.steps[q].banks == OneSha256Bank(ctx.pcrBitmap)
  }

  /** What a receipt is made of: such a bundle, and then such a message and quote. */
  ghost predicate Built(maker: Maker, run: Run, rec: StopRecord, nonce: Bytes, p: Receipt, k: NvCertify, c: nat,
                        r: nat, q: nat)
  {
    && p.Encodable()
    && Bundled(maker, run, rec, nonce, p.bundle, k, c)
    && Quoted(maker, run, rec.stopEpoch, p, r, q)
    && c < r
  }

  /** The stop record a receipt carries, by parsing alone. */
  function RecordOf(receipt: Bytes): Option<StopRecord> {
    var r :- DecodeReceipt(receipt);
    var ss :- DecodeBundle(r.bundle);
    var found := RecordSections(ss);
    if |found| == 1 then DecodeRecord(found[0].body) else None
  }

  function RecordSections(ss: seq<Section>): seq<Section> {
    if ss == [] then []
    else (if ss[0].tag == TAG_STOP_STATE then [ss[0]] else []) + RecordSections(ss[1..])
  }

  lemma {:induction false} OneRecordSection(ss: seq<Section>, body: Bytes)
    ensures RecordSections(ss) == [] <==> Fills(ss, TAG_STOP_STATE, None)
    ensures RecordSections(ss) == [Section(TAG_STOP_STATE, body)] <==> Fills(ss, TAG_STOP_STATE, Some(body))
  {
    if ss != [] {
      OneRecordSection(ss[1..], body);
      JoinsFront(None, ss, TAG_STOP_STATE, Some(body));
      assert forall j | 0 < j < |ss| :: ss[j] == ss[1..][j - 1];
      assert forall j | 0 <= j < |ss[1..]| :: ss[1..][j] == ss[j + 1];
      if ss[0].tag == TAG_STOP_STATE {
        var tail := RecordSections(ss[1..]);
        assert RecordSections(ss)[0] == ss[0] && RecordSections(ss)[1..] == tail;
      }
    }
  }

  /** A receipt carries a record exactly when it parses and one section, and only one, is that record. */
  lemma RecordOfIff(receipt: Bytes, rec: StopRecord)
    ensures RecordOf(receipt) == Some(rec) <==>
            && DecodeReceipt(receipt).Some? && DecodeBundle(DecodeReceipt(receipt).value.bundle).Some?
            && rec.Encodable()
            && Fills(DecodeBundle(DecodeReceipt(receipt).value.bundle).value, TAG_STOP_STATE, Some(PutRecord(rec)))
  {
    hide DecodeReceipt, DecodeBundle, DecodeRecord, PutRecord, RecordSections, Fills;
    if DecodeReceipt(receipt).Some? && DecodeBundle(DecodeReceipt(receipt).value.bundle).Some? {
      var ss := DecodeBundle(DecodeReceipt(receipt).value.bundle).value;
      var found := RecordSections(ss);
      if |found| == 1 {
        RecordSectionsAreTagged(ss);
        RecordExact(found[0].body, rec);
        OneRecordSection(ss, found[0].body);
        assert found == [Section(TAG_STOP_STATE, found[0].body)];
      }
      if rec.Encodable() {
        OneRecordSection(ss, PutRecord(rec));
        RecordExact(PutRecord(rec), rec);
      }
    }
  }

  lemma {:induction false} RecordSectionsAreTagged(ss: seq<Section>)
    ensures forall j | 0 <= j < |RecordSections(ss)| :: RecordSections(ss)[j].tag == TAG_STOP_STATE
  {
    if ss != [] {
      RecordSectionsAreTagged(ss[1..]);
    }
  }

  lemma BundleFits(rec: StopRecord, k: NvCertify, nonce: Bytes)
    requires rec.Encodable() && k.Encodable() && (nonce == [] || NonceFits(nonce))
    ensures AllValid(SectionsOf(PutRecord(rec), PutCertify(k), nonce))
    ensures Bounded(PutBundle(SectionsOf(PutRecord(rec), PutCertify(k), nonce)), BUNDLE_MAX)
  {
    var record, certify := PutRecord(rec), PutCertify(k);
    var ss := SectionsOf(record, certify, nonce);
    assert |record| <= REFUSAL_LEN && |certify| <= 4 + ATTEST_MAX + SIG_MAX;
    var tail := if nonce == [] then [] else [Section(TAG_VERIFIER_NONCE, nonce)];
    assert ss[1..] == [Section(TAG_TPM_NV_CERTIFY, certify)] + tail && ss[1..][1..] == tail;
    assert |PutBundle(tail)| <= 6 + NONCE_MAX by {
      assert nonce != [] ==> tail[1..] == [];
    }
    assert |PutBundle(ss[1..])| == 6 + |certify| + |PutBundle(tail)|;
    assert |PutBundle(ss)| == 6 + |record| + |PutBundle(ss[1..])|;
  }

  /** Why there may be no receipt at `epoch` though every call did what it could, since state `from`: the
      counter was not at the epoch, the service has another index name, or what the AK signed does not fit. */
  ghost predicate Excused(maker: Maker, run: Run, from: nat, epoch: u64) {
    || maker.ctx.stopIndexName != StopIndexName(maker.site.sha)
    || (exists k | from <= k < |run.states| :: run.states[k].counter != Some(epoch))
    || (exists k: nat, m: Bytes | from <= k && SignedAt(maker.site, run, k, m) ::
          !Bounded(m, ATTEST_MAX) || !Bounded(maker.sign(m), SIG_MAX))
  }

  lemma OffEpochExcuses(chip: Chip, ctx: Ctx, from: nat, epoch: u64)
    requires chip.Valid() && from <= |chip.run.steps|
    ensures chip.w.counter != Some(epoch) ==> Excused(Maker(chip.site, chip.sign, ctx), chip.run, from, epoch)
  {
  }

  lemma {:induction false} ExcusedStays(maker: Maker, before: Run, after: Run, from: nat, later: nat, epoch: u64)
    requires Continues(before, after) && |after.steps| < |after.states| && from <= later
    ensures Excused(maker, before, later, epoch) ==> Excused(maker, after, from, epoch)
  {
    hide SignedAt;
    if exists k | later <= k < |before.states| :: before.states[k].counter != Some(epoch) {
      var k :| later <= k < |before.states| && before.states[k].counter != Some(epoch);
      assert after.states[k] == before.states[k];
    }
    if k: nat, m: Bytes :| later <= k && SignedAt(maker.site, before, k, m)
                           && (!Bounded(m, ATTEST_MAX) || !Bounded(maker.sign(m), SIG_MAX)) {
      SignedStays(maker.site, before, after, k, m);
    }
  }

  lemma CertifyFits(maker: Maker, run: Run, from: nat, c: nat, k: NvCertify, qualifying: Bytes, epoch: u64)
    requires from <= c && SignedAt(maker.site, run, c, k.attest) && k.sig == maker.sign(k.attest)
    requires IsCertify(run.steps[c], qualifying)
    ensures || (CertifiesCounter(k.attest, qualifying, maker.ctx.stopIndexName, epoch) && k.Encodable())
            || Excused(maker, run, from, epoch)
  {
    if run.states[c].counter == Some(epoch) && maker.ctx.stopIndexName == StopIndexName(maker.site.sha) {
      var made := CertifyMade(maker.site, run.states[c], run.steps[c]);
      assert made.contents == PutU64(epoch);
      NvAttestPut(made, run.steps[c].firmwareBytes);
      hide DecodeNvAttest, PutNvAttest, CertifyMade, StepAt, SignedBy;
      assert SignedAt(maker.site, run, c, k.attest);
    }
  }

  /** Steps 1 to 3 of `sign`. The TPM's own certify is checked before anything is built on it, so a
      counter that moved since the service read it yields no receipt. */
  method CertifyAndBundle(chip: Chip, ctx: Ctx, rec: StopRecord, nonce: Bytes)
    returns (out: Option<Bytes>, ghost k: NvCertify, ghost c: nat)
    requires chip.Valid()
    modifies chip
    ensures chip.Valid() && Continues(old(chip.run), chip.run)
    ensures chip.own == old(chip.own) && chip.w.asked == old(chip.w.asked)
    ensures out.Some? ==>
              && |old(chip.run.steps)| <= c < |chip.run.steps|
              && Bundled(Maker(chip.site, chip.sign, ctx), chip.run, rec, nonce, out.value, k, c)
              && (nonce == [] || NonceFits(nonce) ==> Bounded(out.value, BUNDLE_MAX))
    ensures old(chip.faults) <= chip.faults
    ensures out.None? && rec.Encodable() && (nonce == [] || NonceFits(nonce)) ==>
              || chip.faults > old(chip.faults)
              || Excused(Maker(chip.site, chip.sign, ctx), chip.run, |old(chip.run.steps)|, rec.stopEpoch)
  {
    hide SignedAt, CertifiesCounter, PutRecord, PutCertify, AllValid, PutBundle, DecodeBundle, ValidRun, Excused;
    k, c := NvCertify([], []), 0;
    var encoded := EncodeRecord(rec);
    if encoded.None? {
      return None, k, c;
    }
    var body := encoded.value;
    var qualifying := chip.site.sha(CertifyInput(body, nonce));
    var certified := chip.Certify(qualifying);
    ghost var maker, from := Maker(chip.site, chip.sign, ctx), |old(chip.run.steps)|;
    if certified.None? {
      OffEpochExcuses(chip, ctx, from, rec.stopEpoch);
      return None, k, c;
    }
    var section := NvCertify(certified.value.0, certified.value.1);
    c, k := |chip.run.steps| - 1, section;
    var fits := CheckCounterCertify(section.attest, qualifying, ctx.stopIndexName, rec.stopEpoch);
    CertifyFits(maker, chip.run, from, c, section, qualifying, rec.stopEpoch);
    if !fits {
      return None, k, c;
    }
    var certify := EncodeCertify(section);
    if certify.None? {
      return None, k, c;
    }
    if nonce == [] || NonceFits(nonce) {
      BundleFits(rec, section, nonce);
    }
    var sections := [Section(TAG_STOP_STATE, body), Section(TAG_TPM_NV_CERTIFY, certify.value)];
    if nonce != [] {
      sections := sections + [Section(TAG_VERIFIER_NONCE, nonce)];
    }
    assert sections == SectionsOf(body, certify.value, nonce);
    out := BuildBundle(sections);
  }

  /** Step 4 of `sign`. */
  method ReadAndQuote(chip: Chip, ctx: Ctx, epoch: u64, bundle: Bytes)
    returns (out: Option<Receipt>, ghost r: nat, ghost q: nat)
    requires chip.Valid() && |ctx.pcrBitmap| == 3
    modifies chip
    ensures chip.Valid() && Continues(old(chip.run), chip.run)
    ensures chip.own == old(chip.own) && chip.w.asked == old(chip.w.asked)
    ensures chip.faults == old(chip.faults) + (if out.None? then 1 else 0)
    ensures out.Some? ==>
              && |old(chip.run.steps)| <= r && q == |chip.run.steps| - 1 && out.value.bundle == bundle
              && Quoted(Maker(chip.site, chip.sign, ctx), chip.run, epoch, out.value, r, q)
  {
    hide SignedAt, PutMessage, Canonical, QuoteInput, SelectedValues, StepAt;
    r, q := 0, 0;
    var pcrState := chip.PcrRead(ctx.pcrBitmap);
    r := |chip.run.steps|;
    if pcrState.None? {
      return None, r, q;
    }
    var msg := BuildCanonical(chip.site.sha, ctx.deviceId, epoch, ctx.Selection(), pcrState.value, bundle);
    var quoted := chip.Quote(chip.site.sha(QuoteInput(msg)), ctx.pcrBitmap);
    if quoted.None? {
      return None, r, q;
    }
    q := |chip.run.steps| - 1;
    out := Some(Receipt(msg, quoted.value.0, quoted.value.1, bundle));
  }

  /** Assemble and sign a receipt. */
  method Sign(chip: Chip, ctx: Ctx, rec: StopRecord, nonce: Bytes)
    returns (out: Option<Bytes>, ghost p: Receipt, ghost k: NvCertify, ghost c: nat, ghost r: nat, ghost q: nat)
    requires chip.Valid() && |ctx.pcrBitmap| == 3
    modifies chip
    ensures chip.Valid() && Continues(old(chip.run), chip.run)
    ensures chip.own == old(chip.own) && chip.w.asked == old(chip.w.asked)
    ensures out.Some? ==> Built(Maker(chip.site, chip.sign, ctx), chip.run, rec, nonce, p, k, c, r, q)
    ensures out.Some? ==> |old(chip.run.steps)| <= c && q == |chip.run.steps| - 1 && out.value == PutReceipt(p)
    ensures old(chip.faults) <= chip.faults
    ensures out.None? && rec.Encodable() && (nonce == [] || NonceFits(nonce)) ==>
              || chip.faults > old(chip.faults)
              || Excused(Maker(chip.site, chip.sign, ctx), chip.run, |old(chip.run.steps)|, rec.stopEpoch)
  {
    hide Bundled, Quoted, PutReceipt, StepAt, Excused;
    ghost var maker, from := Maker(chip.site, chip.sign, ctx), |old(chip.run.steps)|;
    p, r, q := Receipt([], [], [], []), 0, 0;
    var bundle;
    bundle, k, c := CertifyAndBundle(chip, ctx, rec, nonce);
    if bundle.None? {
      return None, p, k, c, r, q;
    }
    ghost var bundled := chip.run;
    var receipt;
    receipt, r, q := ReadAndQuote(chip, ctx, rec.stopEpoch, bundle.value);
    if receipt.None? {
      return None, p, k, c, r, q;
    }
    p := receipt.value;
    BundledStays(maker, bundled, chip.run, rec, nonce, bundle.value, k, c);
    if nonce == [] || NonceFits(nonce) {
      QuoteFits(maker, chip.run, from, rec.stopEpoch, p, r, q);
    }
    out := EncodeReceipt(receipt.value);
  }

  lemma QuoteFits(maker: Maker, run: Run, from: nat, epoch: u64, p: Receipt, r: nat, q: nat)
    requires Quoted(maker, run, epoch, p, r, q) && from <= q && Bounded(p.bundle, BUNDLE_MAX)
    ensures p.Encodable() || Excused(maker, run, from, epoch)
  {
    hide SignedAt, SelectedValues, Canonical;
  }

  lemma BundledStays(maker: Maker, before: Run, after: Run, rec: StopRecord, nonce: Bytes, bundle: Bytes,
                     k: NvCertify, c: nat)
    requires Continues(before, after) && |after.steps| < |after.states|
    requires Bundled(maker, before, rec, nonce, bundle, k, c)
    ensures Bundled(maker, after, rec, nonce, bundle, k, c)
  {
    hide SignedAt, CertifiesCounter, PutRecord, PutCertify, AllValid, PutBundle;
    SignedStays(maker.site, before, after, c, k.attest);
  }

  lemma SignedStays(site: Site, before: Run, after: Run, i: nat, m: Bytes)
    requires Continues(before, after) && |after.steps| < |after.states| && SignedAt(site, before, i, m)
    ensures SignedAt(site, after, i, m)
  {
    assert after.steps[i] == before.steps[i];
    assert after.states[i] == before.states[i] && after.states[i + 1] == before.states[i + 1];
  }

  // ------------------------------------------------- device against verifier

  /** From step c to step q nothing touched the PCRs and the TPM did not reset or restart. */
  ghost predicate Undisturbed(run: Run, c: nat, q: nat) {
    forall j | c <= j < q && j < |run.steps| ::
      !run.steps[j].Extend? && !run.steps[j].PcrReset? && !BootStep(run.steps[j])
  }

  lemma {:induction false} UndisturbedKeepsPcrs(site: Site, run: Run, c: nat, q: nat)
    requires ValidRun(site, run) && c <= q < |run.states| && Undisturbed(run, c, q)
    ensures run.states[c].pcrs == run.states[q].pcrs && run.states[c].clock.SameBoot(run.states[q].clock)
  {
    if c < q {
      UndisturbedKeepsPcrs(site, run, c, q - 1);
      assert StepAt(site, run, q - 1);
    }
  }

  /** What the chip signs verifies under the AK. */
  ghost predicate SignaturesVerify(maker: Maker, run: Run, ak: (Bytes, Bytes) -> bool) {
    forall i: nat, m: Bytes | SignedAt(maker.site, run, i, m) :: ak(m, maker.sign(m))
  }

  /** The trust entry is for this device, its PCR selection and the build it runs at `w`. */
  ghost predicate Expects(maker: Maker, nonce: Bytes, w: World, t: Trust) {
    var sha, ctx := maker.site.sha, maker.ctx;
    && |ctx.pcrBitmap| == 3 && w.Valid()
    && t.deviceId == PadId(ctx.deviceId) && t.pcrSelection == ctx.Selection()
    && t.pcrComposite == Composite(sha, w.pcrs, ctx.pcrBitmap)
    && t.nonce == (if nonce == [] then None else Some(nonce)) && (nonce == [] || NonceFits(nonce))
    && ctx.stopIndexName == StopIndexName(sha)
  }

  /** A record the service may sign: no odd counter reported as running, no nonce on a refusal. */
  predicate Reportable(rec: StopRecord, nonce: Bytes) {
    && rec.Encodable()
    && (rec.stopEpoch % 2 == 1 ==> rec.state.Stopped?)
    && (nonce != [] ==> rec.kind.Status?)
  }

  /** Completeness: with no PCR and no boot step while the receipt was made, the verifier that
      expects this device accepts it and finds in it what the service put there. */
  lemma BuiltIsAccepted(maker: Maker, run: Run, rec: StopRecord, nonce: Bytes, p: Receipt, k: NvCertify, c: nat,
                        r: nat, q: nat, cr: Crypto, t: Trust)
    requires ValidRun(maker.site, run) && Built(maker, run, rec, nonce, p, k, c, r, q) && Reportable(rec, nonce)
    requires cr.sha == maker.site.sha && SignaturesVerify(maker, run, cr.ak)
    requires Undisturbed(run, c, q) && Expects(maker, nonce, run.states[q], t)
    ensures VerifyStopReceipt(cr, PutReceipt(p), t)
         == Ok(StopFinding(rec.kind, rec.state, rec.stopEpoch, rec.policyDigest, nonce != [], run.states[c].clock))
  {
    var parts := PartsBuilt(maker, run, rec, nonce, p, k, c, r, q, cr, t);
    PassedIsAccepted(cr, PutReceipt(p), t, parts);
  }

  /** The parts of one receipt, as `sign` leaves them: made of a certify at step c, a PCR read at r and a
      quote at q. */
  datatype Making = Making(rec: StopRecord, nonce: Bytes, p: Receipt, k: NvCertify, c: nat, r: nat, q: nat) {
    ghost predicate In(maker: Maker, run: Run) {
      Built(maker, run, rec, nonce, p, k, c, r, q) && Reportable(rec, nonce) && nonce != [] && c <= q < |run.states|
    }
  }

  /** Completeness of the interval: two such receipts for different challenges, made over one odd counter
      value on an undisturbed device, the second certify later by the TPM's clock, are accepted as an
      interval from the one certify to the other. */
  lemma IntervalIsAccepted(maker: Maker, run: Run, a: Making, b: Making, cr: Crypto, t: Trust)
    requires ValidRun(maker.site, run) && a.In(maker, run) && b.In(maker, run) && a.nonce != b.nonce
    requires cr.sha == maker.site.sha && SignaturesVerify(maker, run, cr.ak) && t.nonce == None
    requires a.rec.stopEpoch == b.rec.stopEpoch && a.rec.stopEpoch % 2 == 1
    requires a.q <= b.c && Undisturbed(run, a.c, b.q) && run.states[a.c].clock.clock < run.states[b.c].clock.clock
    requires Expects(maker, a.nonce, run.states[a.q], t.(nonce := Some(a.nonce)))
    requires Expects(maker, b.nonce, run.states[b.q], t.(nonce := Some(b.nonce)))
    ensures VerifyStopInterval(cr, PutReceipt(a.p), a.nonce, PutReceipt(b.p), b.nonce, t)
         == Ok(StopInterval(a.rec.stopEpoch, run.states[a.c].clock, run.states[b.c].clock))
  {
    hide Built, Expects, SignaturesVerify, VerifyStopReceipt, PutReceipt, ValidRun, Reportable;
    UndisturbedKeepsPcrs(maker.site, run, a.c, b.c);
    BuiltIsAccepted(maker, run, a.rec, a.nonce, a.p, a.k, a.c, a.r, a.q, cr, t.(nonce := Some(a.nonce)));
    BuiltIsAccepted(maker, run, b.rec, b.nonce, b.p, b.k, b.c, b.r, b.q, cr, t.(nonce := Some(b.nonce)));
  }

  lemma PlacedSections(record: Bytes, certify: Bytes, nonce: Bytes)
    ensures PlaceAll(Slots(None, None, None), SectionsOf(record, certify, nonce))
         == Some(Slots(Some(record), Some(certify), if nonce == [] then None else Some(nonce)))
  {
    var s0, s1 := Slots(Some(record), None, None), Slots(Some(record), Some(certify), None);
    var tail := if nonce == [] then [] else [Section(TAG_VERIFIER_NONCE, nonce)];
    var ss := SectionsOf(record, certify, nonce);
    assert ss[1..] == [Section(TAG_TPM_NV_CERTIFY, certify)] + tail && ss[1..][1..] == tail;
    assert PlaceAll(s1, tail) == Some(if nonce == [] then s1 else s1.(nonce := Some(nonce))) by {
      assert nonce != [] ==> tail[1..] == [];
    }
    assert PlaceAll(s0, ss[1..]) == PlaceAll(s1, tail);
  }

  lemma QuoteBuilt(maker: Maker, run: Run, rec: StopRecord, nonce: Bytes, p: Receipt, k: NvCertify, c: nat, r: nat,
                   q: nat, t: Trust)
    returns (quote: Quote)
    requires ValidRun(maker.site, run) && Built(maker, run, rec, nonce, p, k, c, r, q)
    requires Undisturbed(run, c, q) && Expects(maker, nonce, run.states[q], t)
    ensures DecodeQuote(p.quoteAttest) == Some(quote) && quote.Valid()
    ensures quote.head.extraData == maker.site.sha(QuoteInput(p.msg)) && quote.head.clock == run.states[q].clock
    ensures OneBank(quote.pcrBanks, t.pcrSelection) && quote.pcrDigest == t.pcrComposite
  {
    var w, s := run.states[q], run.steps[q];
    quote := QuoteMade(maker.site, w, s);
    QuoteExact(p.quoteAttest, quote);
    OneBankIsValid(maker.ctx.pcrBitmap);
  }

  lemma PartsBuilt(maker: Maker, run: Run, rec: StopRecord, nonce: Bytes, p: Receipt, k: NvCertify, c: nat, r: nat,
                   q: nat, cr: Crypto, t: Trust)
    returns (parts: Parts)
    requires ValidRun(maker.site, run) && Built(maker, run, rec, nonce, p, k, c, r, q) && Reportable(rec, nonce)
    requires cr.sha == maker.site.sha && SignaturesVerify(maker, run, cr.ak)
    requires Undisturbed(run, c, q) && Expects(maker, nonce, run.states[q], t)
    ensures Passed(cr, PutReceipt(p), t, parts)
    ensures parts.record == rec && parts.nonce == nonce && parts.nv.head.clock == run.states[c].clock
  {
    var quote := QuoteBuilt(maker, run, rec, nonce, p, k, c, r, q, t);
    var body, certify := PutRecord(rec), PutCertify(k);
    var ss := SectionsOf(body, certify, nonce);
    var msg := Canonical(cr.sha, maker.ctx.deviceId, rec.stopEpoch, maker.ctx.Selection(),
                         SelectedValues(cr.sha, run.states[r].pcrs, maker.ctx.pcrBitmap, PCRS), p.bundle);
    var slots := Slots(Some(body), Some(certify), if nonce == [] then None else Some(nonce));
    var nv := DecodeNvAttest(k.attest).value;
    parts := Parts(p, msg, quote, slots, rec, nonce, k, nv);
    ReceiptExact(PutReceipt(p), p);
    MessageExact(p.msg, msg);
    BundleExact(p.bundle, ss);
    PlacedSections(body, certify, nonce);
    RecordExact(body, rec);
    CertifyExact(certify, k);
    CertifyCameFromTheTpm(maker.site, run, c, k.attest);
    assert nv.head.clock == run.states[c].clock;
    UndisturbedKeepsPcrs(maker.site, run, c, q);
    UndisturbedKeepsPcrs(maker.site, run, r, q);
  }

  /** What a receipt reports about itself is what it was built for. */
  lemma BuiltCarriesItsRecord(maker: Maker, run: Run, rec: StopRecord, nonce: Bytes, p: Receipt, k: NvCertify,
                              c: nat, r: nat, q: nat)
    requires Built(maker, run, rec, nonce, p, k, c, r, q)
    ensures rec.Encodable() && RecordOf(PutReceipt(p)) == Some(rec)
  {
    hide SignedAt, CertifiesCounter, PutMessage, Canonical, PutCertify, PutRecord, DecodeRecord, DecodeReceipt;
    hide PutReceipt, DecodeBundle, PutBundle;
    var record, certify := PutRecord(rec), PutCertify(k);
    var ss := SectionsOf(record, certify, nonce);
    ReceiptExact(PutReceipt(p), p);
    BundleExact(p.bundle, ss);
    RecordExact(record, rec);
    var tail := if nonce == [] then [] else [Section(TAG_VERIFIER_NONCE, nonce)];
    assert ss[1..] == [Section(TAG_TPM_NV_CERTIFY, certify)] + tail && ss[1..][1..] == tail;
    assert RecordSections(tail) == [] by {
      assert nonce != [] ==> tail[1..] == [];
    }
    assert RecordSections(ss[1..]) == [] + RecordSections(tail);
    assert RecordSections(ss) == [ss[0]] + RecordSections(ss[1..]);
  }

  /** The verifier's reading of a gate: an odd counter is the TPM's word, the rest the service's. */
  function BasisFor(g: Gate): StopBasis {
    match g
    case Shut => Counter
    case Unreleased => NoRelease
    case Open => RunningBasis
  }

  /** Why there may be no gate to answer with: the counter was undefined, or the release read for an even
      value cannot be read. */
  ghost predicate NoDecision(site: Site, run: Run, from: nat, epoch: u64, s: nat, m: nat, g: nat) {
    && s < |run.states|
    && ((from <= s && run.states[s].counter.None?) ||
        (&& from <= s <= m <= g < |run.states| && run.states[s].counter == Some(epoch)
         && GateAt(site, ReadPair(run.states[m].record, run.states[g].sig), epoch).None?))
  }

  /** Answers the question for the present state: the counter is read at s, the record file at m and its
      signature at g. The verifier that expects this device accepts the answer, unless something disturbed
      the chip meanwhile, and reads from it the gate the service saw. */
  method Status(chip: Chip, ctx: Ctx, nonce: Bytes, ghost cr: Crypto, ghost t: Trust)
    returns (out: Option<Bytes>, ghost gate: Gate, ghost epoch: u64, ghost s: nat, ghost m: nat,
             ghost g: nat)
    requires chip.Valid() && |ctx.pcrBitmap| == 3
    modifies chip
    ensures chip.Valid() && Continues(old(chip.run), chip.run) && chip.own == old(chip.own)
    ensures out.None? ==>
              || !(nonce == [] || NonceFits(nonce))
              || chip.faults > old(chip.faults)
              || NoDecision(chip.site, chip.run, |old(chip.run.steps)|, epoch, s, m, g)
              || Excused(Maker(chip.site, chip.sign, ctx), chip.run, s, epoch)
    ensures old(chip.faults) <= chip.faults
    ensures out.Some? ==> nonce == [] || NonceFits(nonce)
    ensures out.Some? ==>
              && |old(chip.run.steps)| <= s <= m <= g < |chip.run.states| && chip.run.states[s].counter == Some(epoch)
              && GateAt(chip.site, ReadPair(chip.run.states[m].record, chip.run.states[g].sig), epoch) == Some(gate)
              && RecordOf(out.value) == Some(StopRecord(Kind.Status, gate.State(), epoch, ctx.policyDigest))
    ensures && out.Some? && cr.sha == chip.site.sha
            && SignaturesVerify(Maker(chip.site, chip.sign, ctx), chip.run, cr.ak)
            && Undisturbed(chip.run, |old(chip.run.steps)|, |chip.run.steps|)
            && Expects(Maker(chip.site, chip.sign, ctx), nonce, chip.w, t)
            ==> var f := VerifyStopReceipt(cr, out.value, t);
                && f.Ok? && f.value.kind == Kind.Status && f.value.state == gate.State() && f.value.stopEpoch == epoch
                && f.value.policyDigest == ctx.policyDigest && f.value.bound == (nonce != [])
                && f.value.Basis() == BasisFor(gate)
  {
    hide Built, GateAt, RecordOf, VerifyStopReceipt, SignaturesVerify, PutReceipt, ReadPair, Undisturbed, Expects;
    hide Excused;
    gate, epoch, s, m, g := Shut, 0, 0, 0, 0;
    if nonce != [] && !NonceFits(nonce) {
      return None, gate, epoch, s, m, g;
    }
    var counter := chip.ReadCounter();
    if counter.None? {
      s := |chip.run.steps|;
      return None, gate, epoch, s, m, g;
    }
    s := |chip.run.steps|;
    var now;
    now, m := chip.GateNow(counter.value, None);
    g := |chip.run.steps|;
    epoch := counter.value;
    if now.None? {
      return None, gate, epoch, s, m, g;
    }
    gate := now.value;
    GateParity(chip.site, ReadPair(chip.run.states[m].record, chip.w.sig), counter.value);
    var rec := StopRecord(Kind.Status, now.value.State(), counter.value, ctx.policyDigest);
    ghost var before := chip.run;
    out := SignAndCheck(chip, ctx, rec, nonce, cr, t);
    ExcusedStays(Maker(chip.site, chip.sign, ctx), chip.run, chip.run, s, |before.steps|, epoch);
    UndisturbedSince(chip.run, |old(chip.run.steps)|, |before.steps|, |chip.run.steps|);
  }

  /** What is signed carries its record, and the verifier that expects this device accepts it, unless
      something disturbed the chip meanwhile. */
  method SignAndCheck(chip: Chip, ctx: Ctx, rec: StopRecord, nonce: Bytes, ghost cr: Crypto, ghost t: Trust)
    returns (out: Option<Bytes>)
    requires chip.Valid() && |ctx.pcrBitmap| == 3
    modifies chip
    ensures chip.Valid() && Continues(old(chip.run), chip.run)
    ensures chip.own == old(chip.own) && chip.w.asked == old(chip.w.asked)
    ensures old(chip.faults) <= chip.faults
    ensures out.None? && rec.Encodable() && (nonce == [] || NonceFits(nonce)) ==>
              || chip.faults > old(chip.faults)
              || Excused(Maker(chip.site, chip.sign, ctx), chip.run, |old(chip.run.steps)|, rec.stopEpoch)
    ensures out.Some? ==> rec.Encodable() && RecordOf(out.value) == Some(rec)
    ensures && out.Some? && Reportable(rec, nonce)
            && cr.sha == chip.site.sha && SignaturesVerify(Maker(chip.site, chip.sign, ctx), chip.run, cr.ak)
            && Undisturbed(chip.run, |old(chip.run.steps)|, |chip.run.steps|)
            && Expects(Maker(chip.site, chip.sign, ctx), nonce, chip.w, t)
            ==> Finds(VerifyStopReceipt(cr, out.value, t), rec, nonce)
  {
    hide Built, RecordOf, VerifyStopReceipt, SignaturesVerify, PutReceipt, Expects, Reportable, Excused;
    ghost var p, k, c, r, q;
    out, p, k, c, r, q := Sign(chip, ctx, rec, nonce);
    if out.Some? {
      ghost var maker := Maker(chip.site, chip.sign, ctx);
      BuiltCarriesItsRecord(maker, chip.run, rec, nonce, p, k, c, r, q);
      BuiltOrder(maker, chip.run, rec, nonce, p, k, c, r, q);
      if Reportable(rec, nonce) && cr.sha == chip.site.sha && SignaturesVerify(maker, chip.run, cr.ak)
         && Undisturbed(chip.run, |old(chip.run.steps)|, |chip.run.steps|) && Expects(maker, nonce, chip.w, t) {
        BuiltIsAccepted(maker, chip.run, rec, nonce, p, k, c, r, q, cr, t);
      }
    }
  }

  /** The verifier finds in a receipt what it was made for. */
  predicate Finds(f: Result<StopFinding, Refusal>, rec: StopRecord, nonce: Bytes) {
    && f.Ok? && f.value.kind == rec.kind && f.value.state == rec.state && f.value.stopEpoch == rec.stopEpoch
    && f.value.policyDigest == rec.policyDigest && f.value.bound == (nonce != [])
  }

  lemma GateParity(site: Site, release: ReleaseFile, counter: u64)
    ensures GateAt(site, release, counter).Some? ==>
              (GateAt(site, release, counter).value == Shut <==> counter % 2 == 1)
  {
  }

  lemma BuiltOrder(maker: Maker, run: Run, rec: StopRecord, nonce: Bytes, p: Receipt, k: NvCertify, c: nat, r: nat,
                   q: nat)
    requires ValidRun(maker.site, run) && Built(maker, run, rec, nonce, p, k, c, r, q) && q == |run.steps| - 1
    ensures c < q && run.states[q] == run.states[q + 1]
  {
    hide Bundled, SignedAt, PutMessage, Canonical, SelectedValues;
    assert StepAt(maker.site, run, q);
  }

  datatype Admission = Allow | Refuse(receipt: Bytes)

  /** Decide one call: the counter is read, then the record file, then its signature. `None` is any error,
      and lets nothing through. A call is let through only as the run's own admission steps,
      so what is proved of those holds of it: it was read at step k, its record at m if the value is even,
      and it is decided at d. A refusal carries a receipt with the digest of the request, which the verifier
      that expects this device accepts. */
  method Admit(chip: Chip, ctx: Ctx, requestDigest: Digest, call: nat, ghost cr: Crypto, ghost t: Trust)
    returns (out: Option<Admission>, ghost epoch: u64, ghost k: nat, ghost m: nat, ghost d: nat)
    requires chip.Valid() && |ctx.pcrBitmap| == 3 && call !in chip.w.asked
    modifies chip
    ensures chip.Valid() && Continues(old(chip.run), chip.run) && chip.own == old(chip.own)
    ensures old(chip.faults) <= chip.faults
    ensures out.None? ==>
              || chip.faults > old(chip.faults)
              || NoDecision(chip.site, chip.run, |old(chip.run.steps)|, epoch, k, m, d)
              || Excused(Maker(chip.site, chip.sign, ctx), chip.run, k, epoch)
    ensures out.Some? ==>
              && |old(chip.run.steps)| <= k < m <= d < |chip.run.steps|
              && chip.run.steps[k] == AdmitRead(call) && chip.run.states[k].counter == Some(epoch)
              && chip.run.steps[d] == AdmitDecide(call, out.value.Allow?)
    ensures out.Some? ==>
              (out.value.Allow? <==>
               GateAt(chip.site, ReadPair(chip.run.states[m].record, chip.run.states[d].sig), epoch) == Some(Open))
    ensures out.Some? && out.value.Refuse? ==>
              RecordOf(out.value.receipt) == Some(StopRecord(Refusal(requestDigest), Stopped, epoch, ctx.policyDigest))
    ensures && out.Some? && out.value.Refuse?
            && cr.sha == chip.site.sha && SignaturesVerify(Maker(chip.site, chip.sign, ctx), chip.run, cr.ak)
            && Undisturbed(chip.run, |old(chip.run.steps)|, |chip.run.steps|)
            && Expects(Maker(chip.site, chip.sign, ctx), [], chip.w, t)
            ==> var f := VerifyStopReceipt(cr, out.value.receipt, t);
                && Finds(f, StopRecord(Refusal(requestDigest), Stopped, epoch, ctx.policyDigest), [])
                && f.value.Basis() == (if epoch % 2 == 1 then Counter else NoRelease)
  {
    hide GateAt, RecordOf, VerifyStopReceipt, SignaturesVerify, ReadPair, Undisturbed, Expects, Excused;
    var gate, counter;
    gate, counter, k, m, d := Decide(chip, call);
    epoch := counter;
    if gate.None? {
      return None, epoch, k, m, d;
    }
    if gate.value.Open? {
      return Some(Allow), epoch, k, m, d;
    }
    GateParity(chip.site, ReadPair(chip.run.states[m].record, chip.run.states[d].sig), counter);
    var rec := StopRecord(Refusal(requestDigest), Stopped, counter, ctx.policyDigest);
    ghost var before := chip.run;
    var receipt := SignAndCheck(chip, ctx, rec, [], cr, t);
    ExcusedStays(Maker(chip.site, chip.sign, ctx), chip.run, chip.run, k, |before.steps|, epoch);
    if receipt.None? {
      return None, epoch, k, m, d;
    }
    UndisturbedSince(chip.run, |old(chip.run.steps)|, |before.steps|, |chip.run.steps|);
    return Some(Refuse(receipt.value)), epoch, k, m, d;
  }

  /** The reads of one call and its decision. */
  method Decide(chip: Chip, call: nat)
    returns (gate: Option<Gate>, epoch: u64, ghost k: nat, ghost m: nat, ghost d: nat)
    requires chip.Valid() && call !in chip.w.asked
    modifies chip
    ensures chip.Valid() && Continues(old(chip.run), chip.run) && chip.own == old(chip.own)
    ensures old(chip.faults) <= chip.faults
    ensures gate.None? ==>
              || chip.faults > old(chip.faults)
              || NoDecision(chip.site, chip.run, |old(chip.run.steps)|, epoch, k, m, d)
    ensures gate.Some? ==>
              && |old(chip.run.steps)| <= k < m <= d < |chip.run.steps|
              && chip.run.steps[k] == AdmitRead(call) && chip.run.states[k].counter == Some(epoch)
              && chip.run.steps[d] == AdmitDecide(call, gate.value.Open?)
              && GateAt(chip.site, ReadPair(chip.run.states[m].record, chip.run.states[d].sig), epoch) == gate
  {
    hide GateAt, ReadPair, StepAt, SignedBy, SignedAt, ValidRun, World.Valid;
    epoch, k, m, d := 0, 0, 0, 0;
    var counter := chip.ReadCounter();
    if counter.None? {
      k := |chip.run.steps|;
      return None, epoch, k, m, d;
    }
    epoch := counter.value;
    k := |chip.run.steps|;
    chip.Do(AdmitRead(call));
    assert chip.w.asked == old(chip.w.asked)[call := CounterRead(epoch)];
    gate, m := chip.GateNow(epoch, Some(call));
    d := |chip.run.steps|;
    if gate.None? {
      return None, epoch, k, m, d;
    }
    GateParity(chip.site, ReadPair(chip.run.states[m].record, chip.w.sig), epoch);
    chip.Do(AdmitDecide(call, gate.value.Open?));
  }

  lemma UndisturbedSince(run: Run, i: nat, j: nat, k: nat)
    requires i <= j <= k
    ensures Undisturbed(run, i, k) ==> Undisturbed(run, j, k)
  {
  }
}
