/** One question of the gateway, from the bytes on the connection to the answer; and which requests a
    refusal can be presented as being about. */
module Gateway {
  import opened Bytes
  import opened Http
  import opened HttpRequests
  import opened StopCodec
  import opened StopVerify
  import opened StopRuns
  import opened StopSoundness
  import opened StopDevice
  import opened StopService
  import opened StopAnswers

  function InputOf(r: Request): Bytes {
    RequestInput(r.verb, r.path, r.body)
  }

  // ------------------------------------------------------------------ one question

  const OK := 200
  const BAD_REQUEST := 400
  const REFUSED := 403
  const UNAVAILABLE := 503

  /** Read a request, decide it, answer it. Only an open gate is answered 200; a refusal carries a receipt
      over the digest of exactly the request received, at the value the counter was read to be; and when the
      request cannot be read the chip is not asked at all. */
  method Handle(s: Stream, chip: Chip, ctx: Ctx, call: nat, ghost cr: Crypto, ghost t: Trust)
    returns (code: nat, receipt: Option<Bytes>, ghost epoch: u64, ghost k: nat, ghost m: nat, ghost d: nat)
    requires chip.Valid() && |ctx.pcrBitmap| == 3 && call !in chip.w.asked
    modifies s, chip
    ensures chip.Valid() && Continues(old(chip.run), chip.run) && chip.own == old(chip.own)
    ensures code in {OK, BAD_REQUEST, REFUSED, UNAVAILABLE} && (code == REFUSED <==> receipt.Some?)
    ensures code == BAD_REQUEST <==> Reading([], old(s.events)).Err?
    ensures code == BAD_REQUEST ==> chip.run == old(chip.run)
    ensures code == UNAVAILABLE ==>
              || chip.faults > old(chip.faults)
              || NoDecision(chip.site, chip.run, |old(chip.run.steps)|, epoch, k, m, d)
              || Excused(Maker(chip.site, chip.sign, ctx), chip.run, k, epoch)
    ensures code in {OK, REFUSED} ==>
              && |old(chip.run.steps)| <= k < m <= d < |chip.run.steps|
              && chip.run.steps[k] == AdmitRead(call) && chip.run.states[k].counter == Some(epoch)
              && chip.run.steps[d] == AdmitDecide(call, code == OK)
              && (code == OK <==>
                  GateAt(chip.site, ReadPair(chip.run.states[m].record, chip.run.states[d].sig), epoch) == Some(Open))
    ensures code == REFUSED ==>
              RecordOf(receipt.value) == Some(RefusalOf(chip.site, ctx, Reading([], old(s.events)).value, epoch))
    ensures && code == REFUSED
            && cr.sha == chip.site.sha && SignaturesVerify(Maker(chip.site, chip.sign, ctx), chip.run, cr.ak)
            && Undisturbed(chip.run, |old(chip.run.steps)|, |chip.run.steps|)
            && Expects(Maker(chip.site, chip.sign, ctx), [], chip.w, t)
            ==> IsAbout(cr, receipt.value, t, Reading([], old(s.events)).value)
  {
    hide GateAt, ReadPair, RecordOf, VerifyStopReceipt, SignaturesVerify, Undisturbed, Expects, Reading, Parsed;
    hide NoDecision, Excused;
    epoch, k, m, d := 0, 0, 0, 0;
    var request := ReadRequest(s);
    if request.Err? {
      return BAD_REQUEST, None, epoch, k, m, d;
    }
    var r := request.value;
    ReadIsParsed([], old(s.events));
    var admission;
    admission, epoch, k, m, d := Admit(chip, ctx, chip.site.sha(InputOf(r)), call, cr, t);
    if admission.None? {
      return UNAVAILABLE, None, epoch, k, m, d;
    }
    match admission.value
    case Allow => return OK, None, epoch, k, m, d;
    case Refuse(refusal) => return REFUSED, Some(refusal), epoch, k, m, d;
  }

  function RefusalOf(site: Site, ctx: Ctx, r: Request, epoch: u64): StopRecord {
    StopRecord(Refusal(site.sha(InputOf(r))), Stopped, epoch, ctx.policyDigest)
  }

  lemma {:induction false} ReadIsParsed(buf: Bytes, events: seq<Event>)
    requires Reading(buf, events).Ok?
    ensures Parsed(Reading(buf, events).value)
    decreases |events|
  {
    hide Parse;
    if Parse(buf).value.None? {
      ReadIsParsed(buf + events[0].bytes, events[1..]);
    }
  }

  // ------------------------------------------------------- what a refusal is about

  /** The verifier accepts the receipt, and it carries the digest of this request, which can be sent. */
  ghost predicate IsAbout(cr: Crypto, receipt: Bytes, t: Trust, r: Request) {
    var f := VerifyStopReceipt(cr, receipt, t);
    && Parsed(r) && f.Ok? && f.value.kind == Refusal(cr.sha(InputOf(r)))
  }

  /** Two requests that can be sent have one digest exactly when they are equal, or the one is a split of the
      other, or SHA-256 collides on them. */
  lemma OneDigestIff(cr: Crypto, r1: Request, r2: Request)
    requires Parsed(r1) && Parsed(r2)
    ensures cr.sha(InputOf(r1)) == cr.sha(InputOf(r2)) <==>
            || r1 == r2
            || (SplitsAt(r1, |r2.path|) && r2 == SplitOf(r1, |r2.path|))
            || Collision(cr.sha, InputOf(r1), InputOf(r2))
  {
    hide Parsed, Fits, RequestInput;
    OneInputIff(r1, r2);
  }

  /** A refusal about one request can be presented as being about another exactly when the first has a split,
      or SHA-256 collides. */
  lemma AboutAnotherIff(cr: Crypto, receipt: Bytes, t: Trust, r: Request)
    requires IsAbout(cr, receipt, t, r)
    ensures (exists r2: Request :: r2 != r && IsAbout(cr, receipt, t, r2)) <==>
            || (exists i: nat :: SplitsAt(r, i))
            || (exists r2: Request :: Parsed(r2) && Collision(cr.sha, InputOf(r), InputOf(r2)))
  {
    hide Parsed, SplitsAt, RequestInput, VerifyStopReceipt;
    if r2: Request :| r2 != r && IsAbout(cr, receipt, t, r2) {
      OneDigestIff(cr, r, r2);
    }
    if exists i: nat :: SplitsAt(r, i) {
      SharedInputIff(r);
      var r2: Request :| Parsed(r2) && r2 != r && InputOf(r2) == InputOf(r);
      assert IsAbout(cr, receipt, t, r2);
    }
    if r2: Request :| Parsed(r2) && Collision(cr.sha, InputOf(r), InputOf(r2)) {
      assert IsAbout(cr, receipt, t, r2);
    }
  }

  /** And there are such refusals, whatever the hash function: from every state of a device, one that is about
      two requests. */
  lemma OneRefusalTwoRequests(maker: Maker, w: World, policy: Digest)
    returns (run: Run, cr: Crypto, receipt: Bytes, t: Trust)
    requires Ready(maker) && w.Valid() && w.asked == map[] && w.counter.Some?
    ensures Setting(maker.site, run, cr) && run.states[0] == w
    ensures var r1, r2 := Request([80], [47, 0, 97], []), Request([80], [47], [97, 0]);
            r1 != r2 && IsAbout(cr, receipt, t, r1) && IsAbout(cr, receipt, t, r2)
  {
    hide Parsed, RequestInput, VerifyStopReceipt, Setting;
    var r1 := Request([80], [47, 0, 97], []);
    TwoRequestsOneInput();
    var rec := StopRecord(Refusal(maker.site.sha(InputOf(r1))), Stopped, w.counter.value, policy);
    run, cr, receipt, t := EveryStateCanBeProved(maker, w, rec, []);
  }
}
