/** What accepted receipts say about the device they came from, over every run of the step system. */
module StopSoundness {
  import opened Bytes
  import opened TpmWire
  import opened Envelope
  import opened StopCodec
  import opened StopVerify
  import opened StopRuns
  import opened Release

  /** No index certified in the run has a public area that collides with the stop counter's. */
  ghost predicate NamesDistinct(site: Site, run: Run) {
    forall i | 0 <= i < |run.steps| && run.steps[i].CertifyOther? && run.steps[i].public.nameAlg == ALG_SHA256
                                   && Fits2b(run.steps[i].public.authPolicy) ::
      !Collision(site.sha, PutNvPublic(run.steps[i].public), PutNvPublic(STOP_PUBLIC))
  }

  /** The setting of every soundness result: a run, an AK whose signatures cannot be forged, and no
      collision on the stop index's name. */
  ghost predicate Setting(site: Site, run: Run, cr: Crypto) {
    ValidRun(site, run) && cr.sha == site.sha && Unforgeable(site, run, cr.ak) && NamesDistinct(site, run)
  }

  // -------------------------------------------------------------- one receipt

  /** At step c the TPM read the stop counter and signed this certify. */
  ghost predicate CertifiedAt(site: Site, run: Run, p: Parts, c: nat) {
    && p.slots.record.Some?
    && SignedAt(site, run, c, p.certify.attest)
    && run.steps[c].CertifyStop?
    && run.states[c].counter == Some(p.record.stopEpoch)
    && run.states[c].clock == p.nv.head.clock
    && run.steps[c].qualifying == site.sha(CertifyInput(p.slots.record.value, p.nonce))
  }

  /** The reference is over the sha256 bank, as `sha256:0,1,8` is. */
  predicate SelectsSha256(t: Trust) {
    |t.pcrSelection| == 5 && t.pcrSelection[..2] == PutU16(ALG_SHA256)
  }

  /** At step q the TPM quoted its PCRs and signed this quote. */
  ghost predicate QuotedAt(site: Site, run: Run, t: Trust, p: Parts, q: nat) {
    && SignedAt(site, run, q, p.receipt.quoteAttest)
    && run.steps[q].MakeQuote?
    && run.states[q].clock == p.quote.head.clock
    && run.steps[q].qualifying == site.sha(QuoteInput(p.receipt.msg))
    && (SelectsSha256(t) ==> Composite(site.sha, run.states[q].pcrs, t.pcrSelection[2..]) == t.pcrComposite)
  }

  lemma WhereCertified(site: Site, run: Run, cr: Crypto, receipt: Bytes, t: Trust, p: Parts, c: nat)
    requires Setting(site, run, cr) && Passed(cr, receipt, t, p) && SignedAt(site, run, c, p.certify.attest)
    ensures CertifiedAt(site, run, p, c)
  {
    CertifyCameFromTheTpm(site, run, c, p.certify.attest);
    var w, s := run.states[c], run.steps[c];
    var made := CertifyMade(site, w, s);
    assert p.nv == made;
    if s.CertifyOther? {
      OtherIndexOtherName(site, s.public, s.name);
      assert false;
    }
    assert made.contents == PutU64(p.record.stopEpoch);
    assert s.size == 8;
    assert made.contents == PutU64(w.counter.value);
    GetPut64(w.counter.value);
    GetPut64(p.record.stopEpoch);
  }

  lemma OtherIndexOtherName(site: Site, public: NvPublic, name: Bytes)
    requires public != STOP_PUBLIC && NamesIndex(site, public, name)
    requires public.nameAlg == ALG_SHA256 ==> !Collision(site.sha, PutNvPublic(public), PutNvPublic(STOP_PUBLIC))
    ensures name != StopIndexName(site.sha)
  {
    var stop := StopIndexName(site.sha);
    if public.nameAlg == ALG_SHA256 {
      if PutNvPublic(public) == PutNvPublic(STOP_PUBLIC) {
        NvPublicInjective(public, STOP_PUBLIC);
      }
      assert name[2..] == site.sha(PutNvPublic(public)) && stop[2..] == site.sha(PutNvPublic(STOP_PUBLIC));
    } else {
      GetPut16(public.nameAlg);
      GetPut16(ALG_SHA256);
      assert name[..2] == PutU16(public.nameAlg);
      assert stop[..2] == PutU16(ALG_SHA256);
    }
  }

  lemma WhereQuoted(site: Site, run: Run, cr: Crypto, receipt: Bytes, t: Trust, p: Parts, q: nat)
    requires Setting(site, run, cr) && Passed(cr, receipt, t, p) && SignedAt(site, run, q, p.receipt.quoteAttest)
    ensures QuotedAt(site, run, t, p, q)
  {
    QuoteCameFromTheTpm(site, run, q, p.receipt.quoteAttest);
    var w, s := run.states[q], run.steps[q];
    assert p.quote == QuoteMade(site, w, s);
    var banks := p.quote.pcrBanks.Entries();
    assert |banks| == 1;
    if SelectsSha256(t) {
      SplitConcat(PutU16(banks[0].alg), banks[0].bits, t.pcrSelection[..2], t.pcrSelection[2..]);
      GetPut16(banks[0].alg);
      GetPut16(ALG_SHA256);
    }
  }

  /** What an accepted receipt with finding f rests on: parts p that passed, a certify at step c and a quote
      at step q, of one boot. */
  ghost predicate RestsOn(site: Site, run: Run, cr: Crypto, receipt: Bytes, t: Trust, f: StopFinding, p: Parts,
                          c: nat, q: nat)
  {
    && Passed(cr, receipt, t, p) && f == FindingOf(p)
    && CertifiedAt(site, run, p, c) && QuotedAt(site, run, t, p, q)
    && run.states[c].counter == Some(f.stopEpoch)
    && NoBootStep(run, c, q) && NoBootStep(run, q, c)
  }

  lemma ReceiptSteps(site: Site, run: Run, cr: Crypto, receipt: Bytes, t: Trust) returns (p: Parts, c: nat, q: nat)
    requires Setting(site, run, cr) && VerifyStopReceipt(cr, receipt, t).Ok?
    ensures RestsOn(site, run, cr, receipt, t, VerifyStopReceipt(cr, receipt, t).value, p, c, q)
  {
    p := PartsOf(cr, receipt, t);
    hide VerifyStopReceipt, DecodeReceipt, DecodeMessage, DecodeQuote, DecodeBundle, DecodeRecord, DecodeCertify;
    hide DecodeNvAttest, PlaceAll, OneBank, StepAt, SignedBy, Composite;
    c :| SignedAt(site, run, c, p.certify.attest);
    q :| SignedAt(site, run, q, p.receipt.quoteAttest);
    WhereCertified(site, run, cr, receipt, t, p, c);
    WhereQuoted(site, run, cr, receipt, t, p, q);
    if c <= q {
      SameBootNoBootStep(site, run, c, q);
    } else {
      SameBootNoBootStep(site, run, q, c);
    }
  }

  /** Receipt soundness. Whatever else the AK signed, an accepted receipt means that the TPM, within
      one boot, read the stop counter at the epoch the record states and quoted the reference PCRs,
      at steps whose qualifying data commit to this record, this nonce and this message. */
  lemma ReceiptSoundness(site: Site, run: Run, cr: Crypto, receipt: Bytes, t: Trust)
    requires Setting(site, run, cr) && VerifyStopReceipt(cr, receipt, t).Ok?
    ensures exists p: Parts, c: nat, q: nat ::
              RestsOn(site, run, cr, receipt, t, VerifyStopReceipt(cr, receipt, t).value, p, c, q)
  {
    hide RestsOn, VerifyStopReceipt, Setting;
    var p, c, q := ReceiptSteps(site, run, cr, receipt, t);
  }

  // ------------------------------------------------------------- the interval

  /** From step c1 to step c2 the stop held: the counter was the odd value or undefined at every
      state, nobody incremented it, the TPM neither reset nor restarted, and no call that read the
      counter in between is ever let through. */
  ghost predicate StopHeld(run: Run, c1: nat, c2: nat, epoch: u64)
    requires |run.states| == |run.steps| + 1
  {
    && c1 < c2 < |run.steps| && epoch % 2 == 1
    && run.states[c1].counter == Some(epoch) == run.states[c2].counter
    && (forall k | c1 <= k <= c2 :: run.states[k].counter == None || run.states[k].counter == Some(epoch))
    && (forall k | c1 <= k < c2 :: !run.steps[k].Increment?)
    && NoBootStep(run, c1, c2)
    && NoCallPasses(run, c1, c2)
  }

  ghost predicate NoCallPasses(run: Run, c1: nat, c2: nat)
    requires |run.states| == |run.steps| + 1
  {
    forall k, d | c1 <= k <= c2 && k < d < |run.steps| && run.steps[k].AdmitRead? ::
      run.steps[d] != AdmitDecide(run.steps[k].call, true)
  }

  /** A call that reads an odd counter is refused, whenever it is decided and whatever release is
      there by then. */
  lemma OddReadsDoNotPass(site: Site, run: Run, c1: nat, c2: nat, epoch: u64)
    requires ValidRun(site, run) && c1 <= c2 < |run.steps| && epoch % 2 == 1
    requires forall k | c1 <= k <= c2 :: run.states[k].counter == None || run.states[k].counter == Some(epoch)
    ensures NoCallPasses(run, c1, c2)
  {
    forall k, d | c1 <= k <= c2 && k < d < |run.steps| && run.steps[k].AdmitRead?
      ensures run.steps[d] != AdmitDecide(run.steps[k].call, true)
    {
      OddReadIsRefused(site, run, k, d);
    }
  }

  lemma OddReadIsRefused(site: Site, run: Run, k: nat, d: nat)
    requires ValidRun(site, run) && k < d < |run.steps| && run.steps[k].AdmitRead?
    requires run.states[k].counter.Some? ==> run.states[k].counter.value % 2 == 1
    ensures run.steps[d] != AdmitDecide(run.steps[k].call, true)
  {
    AskedStays(site, run, k, d);
    assert StepAt(site, run, k) && StepAt(site, run, d);
  }

  /** What an accepted interval v rests on: receipts whose parts p1 and p2 passed, certified at steps c1 and
      c2, the stop held from the one to the other, and the reported time is the TPM's between them. */
  ghost predicate HeldBetween(site: Site, run: Run, cr: Crypto, first: Bytes, n1: Bytes, second: Bytes, n2: Bytes,
                              t: Trust, v: StopInterval, p1: Parts, p2: Parts, c1: nat, c2: nat)
    requires |run.states| == |run.steps| + 1
  {
    && Passed(cr, first, t.(nonce := Some(n1)), p1) && CertifiedAt(site, run, p1, c1)
    && Passed(cr, second, t.(nonce := Some(n2)), p2) && CertifiedAt(site, run, p2, c2)
    && StopHeld(run, c1, c2, v.stopEpoch)
    && run.states[c1].clock.clock + v.HeldMs() == run.states[c2].clock.clock
  }

  lemma CertifyStep(site: Site, run: Run, cr: Crypto, receipt: Bytes, t: Trust, p: Parts) returns (c: nat)
    requires Setting(site, run, cr) && Passed(cr, receipt, t, p)
    ensures CertifiedAt(site, run, p, c)
  {
    hide DecodeQuote, DecodeNvAttest, DecodeReceipt, DecodeMessage, DecodeBundle, DecodeCertify, DecodeRecord;
    hide PlaceAll, OneBank, StepAt, SignedBy;
    c :| SignedAt(site, run, c, p.certify.attest);
    WhereCertified(site, run, cr, receipt, t, p, c);
  }

  lemma IntervalSteps(site: Site, run: Run, cr: Crypto, first: Bytes, n1: Bytes, second: Bytes, n2: Bytes, t: Trust)
    returns (p1: Parts, p2: Parts, c1: nat, c2: nat)
    requires Setting(site, run, cr) && VerifyStopInterval(cr, first, n1, second, n2, t).Ok?
    ensures HeldBetween(site, run, cr, first, n1, second, n2, t,
                        VerifyStopInterval(cr, first, n1, second, n2, t).value, p1, p2, c1, c2)
  {
    hide Passed, VerifyStopInterval, SignedAt, StepAt, Unforgeable, NamesDistinct, StopHeld, CertifyInput;
    p1, p2 := IntervalParts(cr, first, n1, second, n2, t);
    c1 := CertifyStep(site, run, cr, first, t.(nonce := Some(n1)), p1);
    c2 := CertifyStep(site, run, cr, second, t.(nonce := Some(n2)), p2);
    CertifiedInOrder(site, run, p1, p2, c1, c2);
  }

  /** Interval soundness. Two accepted receipts with equal odd counters, equal boot counts and a
      later clock mean that the stop held at every state between the two certified reads. */
  lemma IntervalSoundness(site: Site, run: Run, cr: Crypto, first: Bytes, n1: Bytes, second: Bytes, n2: Bytes, t: Trust)
    requires Setting(site, run, cr) && VerifyStopInterval(cr, first, n1, second, n2, t).Ok?
    ensures exists p1: Parts, p2: Parts, c1: nat, c2: nat ::
              HeldBetween(site, run, cr, first, n1, second, n2, t,
                          VerifyStopInterval(cr, first, n1, second, n2, t).value, p1, p2, c1, c2)
  {
    hide HeldBetween, VerifyStopInterval, Unforgeable, NamesDistinct;
    var p1, p2, c1, c2 := IntervalSteps(site, run, cr, first, n1, second, n2, t);
  }

  /** Wherever in the run the two certifies were made, they were made in this order and the stop
      held from the one to the other. */
  lemma CertifiedInOrder(site: Site, run: Run, p1: Parts, p2: Parts, c1: nat, c2: nat)
    requires ValidRun(site, run) && CertifiedAt(site, run, p1, c1) && CertifiedAt(site, run, p2, c2)
    requires p1.record.stopEpoch == p2.record.stopEpoch && p1.record.stopEpoch % 2 == 1
    requires p1.nv.head.clock.SameBoot(p2.nv.head.clock) && p1.nv.head.clock.clock < p2.nv.head.clock.clock
    ensures StopHeld(run, c1, c2, p1.record.stopEpoch)
  {
    if c2 <= c1 {
      SameBootNoBootStep(site, run, c2, c1);
    }
    assert c1 < c2;
    SameBootNoBootStep(site, run, c1, c2);
    CounterHeldBetween(site, run, c1, c2, p1.record.stopEpoch);
    OddReadsDoNotPass(site, run, c1, c2, p1.record.stopEpoch);
  }

  /** A call in flight that read an even value, and what that was decided on: at step k it read the value
      e, at step m the record file, and at d the signature file. */
  ghost predicate ReadsToOpen(site: Site, run: Run, call: nat, k: nat, m: nat, d: nat, e: u64)
    requires |run.states| == |run.steps| + 1
  {
    && k < m < d < |run.steps|
    && run.steps[k] == AdmitRead(call) && run.states[k].counter == Some(e)
    && run.steps[m] == AdmitRecord(call)
    && GateAt(site, ReadPair(run.states[m].record, run.states[d].sig), e) == Some(Open)
  }

  /** Exactly when a decided call is let through. */
  lemma AllowedIff(site: Site, run: Run, d: nat)
    requires ValidRun(site, run) && d < |run.steps| && run.steps[d].AdmitDecide?
    ensures run.steps[d].allowed <==>
            exists k: nat, m: nat, e: u64 :: ReadsToOpen(site, run, run.steps[d].call, k, m, d, e)
  {
    hide GateAt, ReadPair;
    assert StepAt(site, run, d);
    var call := run.steps[d].call;
    if run.steps[d].allowed {
      var k, m := AskedWasRead(site, run, d, call);
      assert ReadsToOpen(site, run, call, k, m, d, run.states[k].counter.value);
    }
    if k: nat, m: nat, e: u64 :| ReadsToOpen(site, run, call, k, m, d, e) {
      AskedStays(site, run, k, d);
      RecordStays(site, run, m, d);
    }
  }

  /** While the stop held a call was let through exactly if it had read the counter before the first
      certified read, at an even value that the release it then read names. */
  lemma AllowedInsideIff(site: Site, run: Run, c1: nat, c2: nat, epoch: u64, d: nat)
    requires ValidRun(site, run) && StopHeld(run, c1, c2, epoch)
    requires c1 <= d <= c2 && run.steps[d].AdmitDecide?
    ensures run.steps[d].allowed <==>
            exists k: nat, m: nat, e: u64 :: k < c1 && ReadsToOpen(site, run, run.steps[d].call, k, m, d, e)
  {
    hide GateAt, ReadPair;
    AllowedIff(site, run, d);
    var call := run.steps[d].call;
    if run.steps[d].allowed {
      var k: nat, m: nat, e: u64 :| ReadsToOpen(site, run, call, k, m, d, e);
      PassedReadBefore(run, c1, c2, k, d, call);
    }
  }

  lemma PassedReadBefore(run: Run, c1: nat, c2: nat, k: nat, d: nat, call: nat)
    requires |run.states| == |run.steps| + 1 && NoCallPasses(run, c1, c2)
    requires k < d < |run.steps| && d <= c2
    requires run.steps[k] == AdmitRead(call) && run.steps[d] == AdmitDecide(call, true)
    ensures k < c1
  {
  }

  /** What a caller can check at the first certified read: with no undecided call that read an even value
      in flight, no call is let through up to the second. */
  lemma NothingInFlightNothingPasses(site: Site, run: Run, c1: nat, c2: nat, epoch: u64)
    requires ValidRun(site, run) && StopHeld(run, c1, c2, epoch)
    requires forall call | call in run.states[c1].asked ::
               run.states[c1].asked[call].Decided? || run.states[c1].asked[call].value % 2 == 1
    ensures forall d | c1 <= d <= c2 && run.steps[d].AdmitDecide? :: !run.steps[d].allowed
  {
    hide GateAt, ReadPair;
    forall d | c1 <= d <= c2 && run.steps[d].AdmitDecide?
      ensures !run.steps[d].allowed
    {
      var call := run.steps[d].call;
      AllowedInsideIff(site, run, c1, c2, epoch, d);
      if k: nat, m: nat, e: u64 :| k < c1 && ReadsToOpen(site, run, call, k, m, d, e) {
        InFlight(site, run, call, k, m, d, e, c1);
      }
    }
  }

  /** A call that will be let through is in flight, with its even value, from its first read on. */
  lemma InFlight(site: Site, run: Run, call: nat, k: nat, m: nat, d: nat, e: u64, c: nat)
    requires ValidRun(site, run) && ReadsToOpen(site, run, call, k, m, d, e) && k < c <= d
    requires run.steps[d].AdmitDecide? && run.steps[d].call == call
    ensures call in run.states[c].asked && !run.states[c].asked[call].Decided? && run.states[c].asked[call].value == e
    ensures e % 2 == 0
  {
    OpenIff(site, ReadPair(run.states[m].record, run.states[d].sig), e);
    hide GateAt, ReadPair;
    AskedStays(site, run, k, c);
    assert StepAt(site, run, d);
    if run.states[c].asked[call].Decided? {
      DecidedStays(site, run, c, d, call);
    }
  }

  lemma {:induction false} DecidedStays(site: Site, run: Run, i: nat, d: nat, call: nat)
    requires ValidRun(site, run) && i <= d < |run.states|
    requires call in run.states[i].asked && run.states[i].asked[call].Decided?
    ensures call in run.states[d].asked && run.states[d].asked[call].Decided?
  {
    if i < d {
      DecidedStays(site, run, i, d - 1, call);
      assert StepAt(site, run, d - 1);
    }
  }

  /** And there are such calls: the counter is tripped after a call read it, the certified reads follow,
      and between them the call is let through. */
  lemma AllowMayOutliveItsRead(site: Site, w: World, sig: Bytes) returns (run: Run)
    requires w.Valid() && w.asked == map[] && w.counter == Some(4) && w.clock.clock < U64_MAX && ValidId(site.deviceId)
    requires |sig| <= MAX_SIG && site.operator(PrintRelease(ReleaseRecord(site.deviceId, 4)), sig)
    requires w.record == Holds(PrintRelease(ReleaseRecord(site.deviceId, 4))) && w.sig == Holds(sig)
    ensures ValidRun(site, run) && run.states[0] == w && |run.steps| == 7
    ensures run.steps[3].CertifyStop? && run.steps[6].CertifyStop? && StopHeld(run, 3, 6, 5)
    ensures run.states[3].clock.clock < run.states[6].clock.clock
    ensures run.steps[4] == AdmitDecide(0, true)
  {
    PrintedLength(ReleaseRecord(site.deviceId, 4));
    OpenIff(site, ReadPair(w.record, w.sig), 4);
    run := TrippedAfterARead(site, w);
    hide StepAt, GateAt, ReadPair, PrintRelease;
    OddReadsDoNotPass(site, run, 3, 6, 5);
  }

  function CertifyAll(): Step {
    CertifyStop([], [], [0, 0, 0, 0, 0, 0, 0, 0], 0, 8)
  }

  lemma TrippedAfterARead(site: Site, w: World) returns (run: Run)
    requires w.Valid() && w.asked == map[] && w.counter == Some(4) && w.clock.clock < U64_MAX
    requires GateAt(site, ReadPair(w.record, w.sig), 4) == Some(Open)
    ensures |run.states| == 8 && run.states[0] == w
    ensures run.steps == [AdmitRead(0), AdmitRecord(0), Increment, CertifyAll(),
                          AdmitDecide(0, true), Tick(1), CertifyAll()]
    ensures forall i | 0 <= i < 7 :: StepAt(site, run, i)
    ensures run.states[3].counter == Some(5) && run.states[4] == run.states[3]
    ensures run.states[5].counter == Some(5) && run.states[6].counter == Some(5)
    ensures run.states[3].clock.clock + 1 == run.states[6].clock.clock
  {
    hide GateAt, ReadPair, Enabled, After;
    var w1, w2 := ReadCounterAndRecord(site, w);
    var w3 := TripAndCertify(site, w2);
    var w5, w6 := DecideAndTick(site, w3);
    run := Run([w, w1, w2, w3, w3, w5, w6, w6],
               [AdmitRead(0), AdmitRecord(0), Increment, CertifyAll(), AdmitDecide(0, true), Tick(1), CertifyAll()]);
  }

  lemma ReadCounterAndRecord(site: Site, w: World) returns (w1: World, w2: World)
    requires w.Valid() && w.asked == map[] && w.counter == Some(4)
    ensures Enabled(site, w, AdmitRead(0)) && w1 == After(site, w, AdmitRead(0)) && w1.Valid()
    ensures Enabled(site, w1, AdmitRecord(0)) && w2 == After(site, w1, AdmitRecord(0)) && w2.Valid()
    ensures w2 == w.(asked := map[0 := RecordRead(4, w.record)])
  {
    w1 := w.(asked := map[0 := CounterRead(4)]);
    w2 := w.(asked := map[0 := RecordRead(4, w.record)]);
    assert w.asked[0 := CounterRead(4)] == w1.asked && w1.asked[0 := RecordRead(4, w.record)] == w2.asked;
  }

  lemma TripAndCertify(site: Site, w: World) returns (w1: World)
    requires w.Valid() && w.counter == Some(4)
    ensures Enabled(site, w, Increment) && w1 == After(site, w, Increment) && w1.Valid()
    ensures w1.counter == Some(5) && w1.clock == w.clock && w1.asked == w.asked && w1.sig == w.sig
    ensures Enabled(site, w1, CertifyAll()) && After(site, w1, CertifyAll()) == w1
  {
    w1 := After(site, w, Increment);
  }

  lemma DecideAndTick(site: Site, w: World) returns (w1: World, w2: World)
    requires w.Valid() && w.counter == Some(5) && w.clock.clock < U64_MAX
    requires 0 in w.asked && w.asked[0].RecordRead? && w.asked[0].value == 4
    requires GateAt(site, ReadPair(w.asked[0].record, w.sig), 4) == Some(Open)
    ensures Enabled(site, w, AdmitDecide(0, true)) && w1 == After(site, w, AdmitDecide(0, true)) && w1.Valid()
    ensures Enabled(site, w1, Tick(1)) && w2 == After(site, w1, Tick(1)) && w2.Valid()
    ensures w1.counter == w.counter && w2.counter == w.counter && w2.clock.clock == w.clock.clock + 1
    ensures Enabled(site, w2, CertifyAll()) && After(site, w2, CertifyAll()) == w2
  {
    hide GateAt, ReadPair;
    w1 := After(site, w, AdmitDecide(0, true));
    w2 := After(site, w1, Tick(1));
  }

  // ---------------------------------------------------------------- the build

  /** The strings hashed to get a PCR to its value. */
  ghost function ExtendInputs(sha: Bytes -> Digest, n: nat, extended: seq<Digest>): set<Bytes> {
    if extended == [] then {} else
      var before := extended[..|extended| - 1];
      ExtendInputs(sha, n, before) + {PcrValue(sha, n, before) + extended[|extended| - 1]}
  }

  /** On the strings of S, SHA-256 does not collide and does not hit a reset value. */
  ghost predicate SoundOn(sha: Bytes -> Digest, S: set<Bytes>) {
    && (forall x, y | x in S && y in S :: sha(x) == sha(y) ==> x == y)
    && (forall x, n: nat | x in S && n < PCRS :: sha(x) != PcrStart(n))
  }

  /** S holds every string hashed for a PCR at a state, and the string its composite is taken over. */
  ghost predicate Hashes(sha: Bytes -> Digest, S: set<Bytes>, w: World, bits: Bytes) {
    && w.Valid() && |bits| == 3
    && (forall n: nat | n < PCRS :: ExtendInputs(sha, n, w.pcrs[n]) <= S)
    && SelectedValues(sha, w.pcrs, bits, PCRS) in S
  }

  /** A PCR never comes back to a value: its history can be read off it. */
  lemma {:induction false} ValueDeterminesHistory(sha: Bytes -> Digest, S: set<Bytes>, n: nat, h1: seq<Digest>,
                                                  h2: seq<Digest>)
    requires SoundOn(sha, S) && n < PCRS && ExtendInputs(sha, n, h1) <= S && ExtendInputs(sha, n, h2) <= S
    requires PcrValue(sha, n, h1) == PcrValue(sha, n, h2)
    ensures h1 == h2
    decreases |h1|
  {
    ExtendedIsNoReset(sha, S, n, h1);
    ExtendedIsNoReset(sha, S, n, h2);
    if h1 != [] && h2 != [] {
      var b1, b2 := h1[..|h1| - 1], h2[..|h2| - 1];
      var x1, x2 := PcrValue(sha, n, b1) + h1[|h1| - 1], PcrValue(sha, n, b2) + h2[|h2| - 1];
      assert x1 in S && x2 in S;
      SplitConcat(PcrValue(sha, n, b1), h1[|h1| - 1], PcrValue(sha, n, b2), h2[|h2| - 1]);
      ValueDeterminesHistory(sha, S, n, b1, b2);
      assert h1 == b1 + [h1[|h1| - 1]] && h2 == b2 + [h2[|h2| - 1]];
    }
  }

  lemma ExtendedIsNoReset(sha: Bytes -> Digest, S: set<Bytes>, n: nat, h: seq<Digest>)
    requires SoundOn(sha, S) && n < PCRS && ExtendInputs(sha, n, h) <= S
    ensures h != [] ==> PcrValue(sha, n, h) != PcrStart(n)
  {
    if h != [] {
      var x := PcrValue(sha, n, h[..|h| - 1]) + h[|h| - 1];
      assert x in S && sha(x) == PcrValue(sha, n, h);
    }
  }

  lemma {:induction false} SelectedLength(sha: Bytes -> Digest, a: seq<seq<Digest>>, b: seq<seq<Digest>>,
                                          bits: Bytes, n: nat)
    requires |a| == PCRS == |b| && |bits| == 3 && n <= PCRS
    ensures |SelectedValues(sha, a, bits, n)| == |SelectedValues(sha, b, bits, n)|
  {
    if n > 0 {
      SelectedLength(sha, a, b, bits, n - 1);
    }
  }

  /** The concatenation of the selected values determines each of them: all are 32 bytes. */
  lemma {:induction false} ConcatDeterminesValues(sha: Bytes -> Digest, a: seq<seq<Digest>>, b: seq<seq<Digest>>,
                                                  bits: Bytes, n: nat)
    requires |a| == PCRS == |b| && |bits| == 3 && n <= PCRS
    requires SelectedValues(sha, a, bits, n) == SelectedValues(sha, b, bits, n)
    ensures forall m: nat | m < n && Selected(bits, m) :: PcrValue(sha, m, a[m]) == PcrValue(sha, m, b[m])
  {
    if n > 0 {
      hide Selected, PcrValue;
      SelectedLength(sha, a, b, bits, n - 1);
      var lastA: Bytes := if Selected(bits, n - 1) then PcrValue(sha, n - 1, a[n - 1]) else [];
      var lastB: Bytes := if Selected(bits, n - 1) then PcrValue(sha, n - 1, b[n - 1]) else [];
      SplitConcat(SelectedValues(sha, a, bits, n - 1), lastA, SelectedValues(sha, b, bits, n - 1), lastB);
      ConcatDeterminesValues(sha, a, b, bits, n - 1);
    }
  }

  /** The selection holds no PCR that can be reset within a boot. */
  predicate FixedUntilBoot(bits: Bytes)
    requires |bits| == 3
  {
    forall n: nat | n < PCRS && Resettable(n) :: !Selected(bits, n)
  }

  /** Between two states of one boot with one composite of such a selection, no selected PCR was extended,
      and the composite was that one throughout. */
  lemma BuildHeld(site: Site, run: Run, q1: nat, q2: nat, bits: Bytes, S: set<Bytes>)
    requires ValidRun(site, run) && q1 <= q2 < |run.states| && run.states[q1].clock.SameBoot(run.states[q2].clock)
    requires SoundOn(site.sha, S)
    requires Hashes(site.sha, S, run.states[q1], bits) && Hashes(site.sha, S, run.states[q2], bits)
    requires FixedUntilBoot(bits)
    requires Composite(site.sha, run.states[q1].pcrs, bits) == Composite(site.sha, run.states[q2].pcrs, bits)
    ensures forall k | q1 <= k < q2 && run.steps[k].Extend? ::
              run.steps[k].pcr < PCRS && !Selected(bits, run.steps[k].pcr)
    ensures forall k | q1 <= k <= q2 :: run.states[k].Valid() &&
              Composite(site.sha, run.states[k].pcrs, bits) == Composite(site.sha, run.states[q1].pcrs, bits)
  {
    ConcatDeterminesValues(site.sha, run.states[q1].pcrs, run.states[q2].pcrs, bits, PCRS);
    forall k, n: nat | q1 <= k <= q2 && n < PCRS && Selected(bits, n)
      ensures run.states[k].Valid() && run.states[k].pcrs[n] == run.states[q1].pcrs[n]
    {
      ValueDeterminesHistory(site.sha, S, n, run.states[q1].pcrs[n], run.states[q2].pcrs[n]);
      StatesAreValid(site, run, k);
      SameBootNoBootStep(site, run, q1, q2);
      PcrsOnlyGrow(site, run, q1, k, n);
      PcrsOnlyGrow(site, run, k, q2, n);
    }
    forall k | q1 <= k < q2 && run.steps[k].Extend?
      ensures run.steps[k].pcr < PCRS && !Selected(bits, run.steps[k].pcr)
    {
      assert StepAt(site, run, k);
      var n := run.steps[k].pcr;
      assert |run.states[k + 1].pcrs[n]| == |run.states[k].pcrs[n]| + 1;
    }
    forall k | q1 <= k <= q2
      ensures && run.states[k].Valid()
              && Composite(site.sha, run.states[k].pcrs, bits) == Composite(site.sha, run.states[q1].pcrs, bits)
    {
      StatesAreValid(site, run, k);
      SameSelectedSameValues(site.sha, run.states[k].pcrs, run.states[q1].pcrs, bits, PCRS);
    }
  }

  /** No more holds of a selection with a PCR that can be reset: extended and reset, it comes back. */
  lemma ResettableIsNotHeld(site: Site, w: World, bits: Bytes, n: nat, digest: Digest) returns (run: Run)
    requires w.Valid() && w.asked == map[] && |bits| == 3 && n < PCRS && Resettable(n) && Selected(bits, n)
    requires w.pcrs[n] == []
    ensures ValidRun(site, run) && run.states[0] == w && |run.steps| == 2 && run.states[2].Valid()
    ensures run.states[0].clock.SameBoot(run.states[2].clock)
    ensures Composite(site.sha, run.states[0].pcrs, bits) == Composite(site.sha, run.states[2].pcrs, bits)
    ensures run.steps[0] == Extend(n, digest)
  {
    hide Selected, Composite;
    var w1 := After(site, w, Extend(n, digest));
    var w2 := After(site, w1, PcrReset(n));
    run := Run([w, w1, w2], [Extend(n, digest), PcrReset(n)]);
    assert w2.pcrs == w.pcrs;
    assert StepAt(site, run, 0) && StepAt(site, run, 1);
  }

  lemma {:induction false} SameSelectedSameValues(sha: Bytes -> Digest, a: seq<seq<Digest>>, b: seq<seq<Digest>>,
                                                  bits: Bytes, n: nat)
    requires |a| == PCRS == |b| && |bits| == 3 && n <= PCRS
    requires forall m: nat | m < n && Selected(bits, m) :: a[m] == b[m]
    ensures SelectedValues(sha, a, bits, n) == SelectedValues(sha, b, bits, n)
  {
    if n > 0 {
      SameSelectedSameValues(sha, a, b, bits, n - 1);
    }
  }

  /** The reference build ran from the one quote of an accepted interval to the other, whichever of
      the two was made first. */
  lemma IntervalBuild(site: Site, run: Run, cr: Crypto, first: Bytes, n1: Bytes, second: Bytes, n2: Bytes, t: Trust,
                      S: set<Bytes>)
    returns (p1: Parts, p2: Parts, q1: nat, q2: nat)
    requires Setting(site, run, cr) && VerifyStopInterval(cr, first, n1, second, n2, t).Ok?
    requires SelectsSha256(t) && FixedUntilBoot(t.pcrSelection[2..])
    requires SoundOn(site.sha, S) && forall k | 0 <= k < |run.states| ::
              Hashes(site.sha, S, run.states[k], t.pcrSelection[2..])
    ensures Passed(cr, first, t.(nonce := Some(n1)), p1) && QuotedAt(site, run, t.(nonce := Some(n1)), p1, q1)
    ensures Passed(cr, second, t.(nonce := Some(n2)), p2) && QuotedAt(site, run, t.(nonce := Some(n2)), p2, q2)
    ensures BuildRan(site, run, q1, q2, t)
  {
    hide Passed, QuotedAt, VerifyStopInterval;
    p1, p2 := IntervalParts(cr, first, n1, second, n2, t);
    q1 := QuoteStep(site, run, cr, first, t.(nonce := Some(n1)), p1);
    q2 := QuoteStep(site, run, cr, second, t.(nonce := Some(n2)), p2);
    var bits := t.pcrSelection[2..];
    assert run.states[q1].clock.SameBoot(run.states[q2].clock);
    if q1 <= q2 {
      BuildHeld(site, run, q1, q2, bits, S);
    } else {
      BuildHeld(site, run, q2, q1, bits, S);
    }
  }

  /** Between steps q1 and q2, in either order, the selected PCRs held the reference and were never
      extended. */
  ghost predicate BuildRan(site: Site, run: Run, q1: nat, q2: nat, t: Trust)
    requires |run.states| == |run.steps| + 1 && |t.pcrSelection| == 5
  {
    && q1 < |run.steps| && q2 < |run.steps|
    && (forall k | q1 <= k <= q2 || q2 <= k <= q1 ::
          run.states[k].Valid() && Composite(site.sha, run.states[k].pcrs, t.pcrSelection[2..]) == t.pcrComposite)
    && (forall k | (q1 <= k < q2 || q2 <= k < q1) && run.steps[k].Extend? ::
          run.steps[k].pcr < PCRS && !Selected(t.pcrSelection[2..], run.steps[k].pcr))
  }

  lemma QuoteStep(site: Site, run: Run, cr: Crypto, receipt: Bytes, t: Trust, p: Parts) returns (q: nat)
    requires Setting(site, run, cr) && Passed(cr, receipt, t, p)
    ensures QuotedAt(site, run, t, p, q) && q < |run.steps| && run.states[q].Valid()
    ensures run.states[q].clock.SameBoot(p.nv.head.clock)
    ensures SelectsSha256(t) ==> Composite(site.sha, run.states[q].pcrs, t.pcrSelection[2..]) == t.pcrComposite
  {
    hide DecodeQuote, DecodeNvAttest, DecodeReceipt, DecodeMessage, DecodeBundle, DecodeCertify, DecodeRecord;
    q :| SignedAt(site, run, q, p.receipt.quoteAttest);
    WhereQuoted(site, run, cr, receipt, t, p, q);
  }

  // -------------------------------------------------------------- admission

  /** Release `file`, if it is on the device at state i, opens the gate there. */
  ghost predicate OpensAt(site: Site, run: Run, file: ReleaseFile, i: nat)
    requires i < |run.states|
  {
    run.states[i].counter.Some? && GateAt(site, file, run.states[i].counter.value) == Some(Open)
  }

  /** A call that was let through read an even value, and the operator's signature over exactly this
      device and that value verifies: the record was on the device after the call's read of the counter,
      the signature when the call was decided. */
  lemma AllowedWasReleased(site: Site, run: Run, d: nat) returns (k: nat, m: nat, c: u64)
    requires ValidRun(site, run) && d < |run.steps| && run.steps[d].AdmitDecide? && run.steps[d].allowed
    ensures k < m < d && run.steps[k] == AdmitRead(run.steps[d].call) && run.states[k].counter == Some(c) && c % 2 == 0
    ensures ValidId(site.deviceId) && run.states[m].record == Holds(PrintRelease(ReleaseRecord(site.deviceId, c)))
    ensures run.states[d].sig.Holds?
    ensures site.operator(PrintRelease(ReleaseRecord(site.deviceId, c)), run.states[d].sig.bytes)
  {
    AllowedIff(site, run, d);
    var e: u64;
    k, m, e :| ReadsToOpen(site, run, run.steps[d].call, k, m, d, e);
    c := e;
    OpenIff(site, ReadPair(run.states[m].record, run.states[d].sig), c);
  }

  /** The states at which one release opens the gate form one stretch: between two of them the counter
      was that value or undefined and nobody incremented it, whatever else happened. */
  lemma OneReleaseOneStretch(site: Site, run: Run, file: ReleaseFile, i: nat, k: nat)
    requires ValidRun(site, run) && i <= k < |run.states| && OpensAt(site, run, file, i) && OpensAt(site, run, file, k)
    ensures forall m | i <= m <= k :: run.states[m].counter == None || OpensAt(site, run, file, m)
    ensures forall m | i <= m < k :: !run.steps[m].Increment?
  {
    OneReleaseOneValue(site, file, run.states[i].counter.value, run.states[k].counter.value);
    CounterHeldBetween(site, run, i, k, run.states[i].counter.value);
  }

  /** Once the counter has passed the value a release names, that release never opens the gate
      again, not even for a counter deleted and defined anew. */
  lemma SpentReleaseStaysShut(site: Site, run: Run, file: ReleaseFile, c: u64, i: nat, k: nat)
    requires ValidRun(site, run) && i <= k < |run.states| && GateAt(site, file, c) == Some(Open)
    requires run.states[i].counter.Some? && run.states[i].counter.value > c
    ensures !OpensAt(site, run, file, k)
  {
    CounterNeverFallsBelow(site, run, i, k);
    if OpensAt(site, run, file, k) {
      OneReleaseOneValue(site, file, c, run.states[k].counter.value);
    }
  }
}
