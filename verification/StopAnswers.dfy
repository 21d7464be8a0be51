/** What the soundness results speak about exists: in every state a device can answer, and a stopped one
    can prove an interval, over any hash function. */
module StopAnswers {
  import opened Bytes
  import opened TpmWire
  import opened Envelope
  import opened StopCodec
  import opened StopVerify
  import opened StopRuns
  import opened StopSoundness
  import opened StopDevice
  import opened StopService

  /** A service as it is set up: the index name it computed, and an AK whose signatures fit a receipt. */
  ghost predicate Ready(maker: Maker) {
    && |maker.ctx.pcrBitmap| == 3 && maker.ctx.stopIndexName == StopIndexName(maker.site.sha)
    && forall m: Bytes :: Bounded(maker.sign(m), SIG_MAX)
  }

  /** What it can be asked for in a state: a record of the counter as it is. */
  ghost predicate Answerable(w: World, rec: StopRecord, nonce: Bytes) {
    && w.Valid() && w.counter == Some(rec.stopEpoch) && Reportable(rec, nonce)
    && (nonce == [] || NonceFits(nonce))
  }

  /** The two steps of an answer at one state, and what they leave to be sent. */
  datatype Answer = Answer(certify: Step, quote: Step, k: NvCertify, p: Receipt) {
    ghost predicate For(maker: Maker, w: World, rec: StopRecord, nonce: Bytes) {
      && |maker.ctx.pcrBitmap| == 3 && w.Valid()
      && certify.CertifyStop? && Signs(maker, w, certify, k.attest, k.sig)
      && quote.MakeQuote? && Signs(maker, w, quote, p.quoteAttest, p.quoteSig)
      && rec.Encodable() && k.Encodable() && p.Encodable()
      && CertifiesCounter(k.attest, maker.site.sha(CertifyInput(PutRecord(rec), nonce)), maker.ctx.stopIndexName,
                          rec.stopEpoch)
      && AllValid(SectionsOf(PutRecord(rec), PutCertify(k), nonce))
      && p.bundle == PutBundle(SectionsOf(PutRecord(rec), PutCertify(k), nonce))
      && p.msg == MessageFor(maker, w, rec.stopEpoch, p.bundle)
      && quote.qualifying == maker.site.sha(QuoteInput(p.msg)) && quote.banks == OneSha256Bank(maker.ctx.pcrBitmap)
    }
  }

  /** A step that changes nothing and signs this. */
  ghost predicate Signs(maker: Maker, w: World, s: Step, attest: Bytes, sig: Bytes)
    requires w.Valid()
  {
    && Enabled(maker.site, w, s) && After(maker.site, w, s) == w
    && SignedBy(maker.site, w, s) == Some(attest) && sig == maker.sign(attest)
  }

  function MessageFor(maker: Maker, w: World, epoch: u64, bundle: Bytes): Bytes
    requires |maker.ctx.pcrBitmap| == 3 && w.Valid()
  {
    PutMessage(Canonical(maker.site.sha, maker.ctx.deviceId, epoch, maker.ctx.Selection(),
                         SelectedValues(maker.site.sha, w.pcrs, maker.ctx.pcrBitmap, PCRS), bundle))
  }

  lemma Certifies(maker: Maker, w: World, rec: StopRecord, nonce: Bytes) returns (s: Step, k: NvCertify)
    requires Ready(maker) && Answerable(w, rec, nonce)
    ensures s.CertifyStop? && Signs(maker, w, s, k.attest, k.sig) && k.Encodable()
    ensures CertifiesCounter(k.attest, maker.site.sha(CertifyInput(PutRecord(rec), nonce)), maker.ctx.stopIndexName,
                             rec.stopEpoch)
  {
    hide CertifyInput, PutRecord;
    var fw: Bytes := [0, 0, 0, 0, 0, 0, 0, 0];
    s := CertifyStop([], maker.site.sha(CertifyInput(PutRecord(rec), nonce)), fw, 0, 8);
    var made := CertifyMade(maker.site, w, s);
    var attest := PutNvAttest(made, fw);
    k := NvCertify(attest, maker.sign(attest));
    assert made.contents == PutU64(rec.stopEpoch);
    NvAttestPut(made, fw);
  }

  lemma Quotes(maker: Maker, w: World, epoch: u64, bundle: Bytes) returns (s: Step, p: Receipt)
    requires Ready(maker) && w.Valid() && Bounded(bundle, BUNDLE_MAX)
    ensures s.MakeQuote? && Signs(maker, w, s, p.quoteAttest, p.quoteSig) && p.Encodable()
    ensures p.bundle == bundle && p.msg == MessageFor(maker, w, epoch, bundle)
    ensures s.qualifying == maker.site.sha(QuoteInput(p.msg)) && s.banks == OneSha256Bank(maker.ctx.pcrBitmap)
  {
    hide QuoteInput, Canonical;
    var msg := MessageFor(maker, w, epoch, bundle);
    OneBankIsValid(maker.ctx.pcrBitmap);
    s := MakeQuote([], maker.site.sha(QuoteInput(msg)), 0, OneSha256Bank(maker.ctx.pcrBitmap), []);
    var attest := PutQuote(QuoteMade(maker.site, w, s));
    p := Receipt(msg, attest, maker.sign(attest), bundle);
  }

  /** Every state has an answer to every question. */
  lemma AnswerAt(maker: Maker, w: World, rec: StopRecord, nonce: Bytes) returns (a: Answer)
    requires Ready(maker) && Answerable(w, rec, nonce)
    ensures a.For(maker, w, rec, nonce)
  {
    hide CertifiesCounter, PutRecord, PutCertify, PutBundle, Signs, MessageFor, SectionsOf;
    var certify, k := Certifies(maker, w, rec, nonce);
    BundleFits(rec, k, nonce);
    var quote, p := Quotes(maker, w, rec.stopEpoch, PutBundle(SectionsOf(PutRecord(rec), PutCertify(k), nonce)));
    a := Answer(certify, quote, k, p);
  }

  /** Its two steps at `i` of a run. */
  ghost predicate AnswersAt(run: Run, i: nat, w: World, a: Answer) {
    && i + 1 < |run.steps| < |run.states|
    && run.steps[i] == a.certify && run.steps[i + 1] == a.quote
    && run.states[i] == run.states[i + 1] == run.states[i + 2] == w
  }

  /** What the AK signs at step i, if anything. */
  ghost predicate SignsAt(site: Site, run: Run, i: nat, m: Option<Bytes>) {
    forall x: Bytes :: SignedAt(site, run, i, x) <==> m == Some(x)
  }

  lemma AnswerIsBuilt(maker: Maker, run: Run, i: nat, w: World, a: Answer, rec: StopRecord, nonce: Bytes)
    requires a.For(maker, w, rec, nonce) && AnswersAt(run, i, w, a)
    ensures Built(maker, run, rec, nonce, a.p, a.k, i, i + 1, i + 1) && a.p.Encodable()
    ensures StepAt(maker.site, run, i) && StepAt(maker.site, run, i + 1)
    ensures SignsAt(maker.site, run, i, Some(a.k.attest))
    ensures SignsAt(maker.site, run, i + 1, Some(a.p.quoteAttest))
    ensures a.certify.CertifyStop? && a.quote.MakeQuote?
  {
    hide CertifiesCounter, PutRecord, PutCertify, PutBundle, SectionsOf, Enabled, After, SignedBy, AllValid;
  }

  /** The verifier's means: the AK, which signed these strings and no others. */
  ghost function Means(maker: Maker, signed: seq<Option<Bytes>>): Crypto {
    Crypto(maker.site.sha, (m: Bytes, sig: Bytes) => Some(m) in signed && sig == maker.sign(m))
  }

  /** The trust entry for this device in this state. */
  ghost function Entry(maker: Maker, w: World, nonce: Option<Bytes>): Trust
    requires |maker.ctx.pcrBitmap| == 3 && w.Valid()
  {
    Trust(PadId(maker.ctx.deviceId), maker.ctx.Selection(), Composite(maker.site.sha, w.pcrs, maker.ctx.pcrBitmap),
          nonce)
  }

  /** Such a run is one the soundness results speak of. */
  lemma InTheSetting(maker: Maker, run: Run, signed: seq<Option<Bytes>>)
    requires ValidRun(maker.site, run) && |signed| == |run.steps|
    requires forall i | 0 <= i < |run.steps| :: !run.steps[i].CertifyOther? && SignsAt(maker.site, run, i, signed[i])
    ensures Setting(maker.site, run, Means(maker, signed)) && SignaturesVerify(maker, run, Means(maker, signed).ak)
  {
    hide StepAt, SignedBy;
    forall m: Bytes | Some(m) in signed
      ensures exists i: nat :: SignedAt(maker.site, run, i, m)
    {
      var i :| 0 <= i < |signed| && signed[i] == Some(m);
      assert SignsAt(maker.site, run, i, signed[i]);
    }
    forall i: nat, m: Bytes | SignedAt(maker.site, run, i, m)
      ensures Some(m) in signed
    {
      assert SignsAt(maker.site, run, i, signed[i]);
    }
  }

  /** From every state, for every record of its counter, there is a run with a receipt that the verifier
      accepts, in the setting of the soundness results. */
  lemma EveryStateCanBeProved(maker: Maker, w: World, rec: StopRecord, nonce: Bytes)
    returns (run: Run, cr: Crypto, receipt: Bytes, t: Trust)
    requires Ready(maker) && Answerable(w, rec, nonce) && w.asked == map[]
    ensures Setting(maker.site, run, cr) && cr.sha == maker.site.sha && run.states[0] == w
    ensures VerifyStopReceipt(cr, receipt, t)
         == Ok(StopFinding(rec.kind, rec.state, rec.stopEpoch, rec.policyDigest, nonce != [], w.clock))
  {
    hide Answer.For, VerifyStopReceipt, Enabled, After, Built, Composite, Reportable, Setting;
    hide SignaturesVerify, SignsAt, StepAt;
    var a := AnswerAt(maker, w, rec, nonce);
    run := Run([w, w, w], [a.certify, a.quote]);
    AnswerIsBuilt(maker, run, 0, w, a, rec, nonce);
    var signed := [Some(a.k.attest), Some(a.p.quoteAttest)];
    cr := Means(maker, signed);
    t := Entry(maker, w, if nonce == [] then None else Some(nonce));
    receipt := PutReceipt(a.p);
    InTheSetting(maker, run, signed);
    BuiltIsAccepted(maker, run, rec, nonce, a.p, a.k, 0, 1, 1, cr, t);
  }

  /** Two answers with a tick between. */
  function RunOf(w: World, later: World, a: Answer, b: Answer): Run {
    Run([w, w, w, later, later, later], [a.certify, a.quote, Tick(1), b.certify, b.quote])
  }

  function SignedIn(a: Answer, b: Answer): seq<Option<Bytes>> {
    [Some(a.k.attest), Some(a.p.quoteAttest), None, Some(b.k.attest), Some(b.p.quoteAttest)]
  }

  lemma TwoAnswers(maker: Maker, w: World, later: World, a: Answer, b: Answer, rec: StopRecord, n1: Bytes, n2: Bytes)
    requires a.For(maker, w, rec, n1) && b.For(maker, later, rec, n2)
    ensures var run := RunOf(w, later, a, b);
            && Built(maker, run, rec, n1, a.p, a.k, 0, 1, 1) && Built(maker, run, rec, n2, b.p, b.k, 3, 4, 4)
            && StepAt(maker.site, run, 0) && StepAt(maker.site, run, 1)
            && StepAt(maker.site, run, 3) && StepAt(maker.site, run, 4)
            && forall i | 0 <= i < 5 && i != 2 :: SignsAt(maker.site, run, i, SignedIn(a, b)[i])
    ensures a.p.Encodable() && b.p.Encodable() && a.certify.CertifyStop? && a.quote.MakeQuote?
    ensures b.certify.CertifyStop? && b.quote.MakeQuote?
  {
    hide Answer.For, Built, StepAt, SignsAt, Receipt.Encodable;
    AnswerIsBuilt(maker, RunOf(w, later, a, b), 0, w, a, rec, n1);
    AnswerIsBuilt(maker, RunOf(w, later, a, b), 3, later, b, rec, n2);
  }

  lemma TickSignsNothing(site: Site, run: Run, i: nat)
    requires i < |run.steps| < |run.states| && run.states[i].Valid() && run.steps[i].Tick?
    requires Enabled(site, run.states[i], run.steps[i])
    requires run.states[i + 1] == After(site, run.states[i], run.steps[i])
    ensures StepAt(site, run, i) && SignsAt(site, run, i, None)
  {
  }

  /** From every state with an odd counter, for any two challenges, there is a run with an interval that the
      verifier accepts. */
  lemma EveryStopCanBeProved(maker: Maker, w: World, policy: Digest, n1: Bytes, n2: Bytes)
    returns (run: Run, cr: Crypto, first: Bytes, second: Bytes, t: Trust)
    requires Ready(maker) && w.Valid() && w.asked == map[] && w.clock.clock < U64_MAX
    requires w.counter.Some? && w.counter.value % 2 == 1 && NonceFits(n1) && NonceFits(n2) && n1 != n2
    ensures Setting(maker.site, run, cr) && run.states[0] == w
    ensures VerifyStopInterval(cr, first, n1, second, n2, t)
         == Ok(StopInterval(w.counter.value, w.clock, w.clock.(clock := w.clock.clock + 1)))
  {
    hide Answer.For, VerifyStopInterval, SignedBy, Built, Composite, Setting, SignaturesVerify, PutReceipt;
    hide StepAt, SignsAt;
    var rec := StopRecord(Kind.Status, Stopped, w.counter.value, policy);
    var later := After(maker.site, w, Tick(1));
    var a := AnswerAt(maker, w, rec, n1);
    var b := AnswerAt(maker, later, rec, n2);
    run := RunOf(w, later, a, b);
    cr := Means(maker, SignedIn(a, b));
    TwoAnswers(maker, w, later, a, b, rec, n1, n2);
    TickSignsNothing(maker.site, run, 2);
    assert ValidRun(maker.site, run);
    InTheSetting(maker, run, SignedIn(a, b));
    t := Entry(maker, w, None);
    first, second := PutReceipt(a.p), PutReceipt(b.p);
    hide Enabled, After;
    var x, y := Making(rec, n1, a.p, a.k, 0, 1, 1), Making(rec, n2, b.p, b.k, 3, 4, 4);
    IntervalIsAccepted(maker, run, x, y, cr, t);
  }
}
