/** The stop service and the operator commands, run against a chip other processes use too. */
module StopDevice {
  import opened Bytes
  import opened TpmWire
  import opened Release
  import opened StopRuns

  ghost predicate Continues(before: Run, after: Run) {
    before.states <= after.states && before.steps <= after.steps
  }

  /** The device as the service's port sees it: the current state, and the run that led to it. Every
      port call first lets other processes take any steps, and may fail. `faults` counts the calls that
      failed although the state allowed them. */
  class Chip {
    const site: Site
    const sign: Bytes -> Bytes  // the signature the AK emits over what it signs
    const alone: bool           // no other process touches the chip or the release files
    var w: World
    ghost var run: Run
    ghost var own: set<nat>     // the increments among the steps that this process asked for
    ghost var faults: nat

    ghost predicate Valid()
      reads this
    {
      && ValidRun(site, run) && |run.states| == |run.steps| + 1 && w == run.states[|run.steps|] && w.Valid()
      && forall i | i in own :: i < |run.steps| && run.steps[i].Increment?
    }

    constructor (site: Site, sign: Bytes -> Bytes, alone: bool, w: World)
      requires w.Valid() && w.asked == map[]
      ensures Valid() && this.site == site && this.sign == sign && this.alone == alone
      ensures this.w == w && run == Run([w], []) && own == {} && faults == 0
    {
      this.site, this.sign, this.alone, this.w := site, sign, alone, w;
      run, own, faults := Run([w], []), {}, 0;
    }

    /** One step of the run. */
    method Do(s: Step)
      requires Valid() && Enabled(site, w, s)
      modifies this
      ensures Valid() && own == old(own) && faults == old(faults)
      ensures w == After(site, old(w), s)
      ensures run == Run(old(run.states) + [w], old(run.steps) + [s])
    {
      ghost var before := run;
      w := After(site, w, s);
      run := Run(run.states + [w], run.steps + [s]);
      assert StepAt(site, run, |before.steps|);
      forall i | 0 <= i < |run.steps| ensures StepAt(site, run, i) {
        if i < |before.steps| {
          assert StepAt(site, before, i);
        }
      }
      StatesAreValid(site, run, |run.steps|);
    }

    /** Whatever other processes do meanwhile. Deciding calls is the service's alone. */
    method Interfere()
      requires Valid()
      modifies this
      ensures Valid() && Continues(old(run), run) && own == old(own) && w.asked == old(w.asked)
      ensures faults == old(faults) && (alone ==> run == old(run))
    {
      var n: nat := *;
      while n > 0 && !alone
        invariant Valid() && Continues(old(run), run) && own == old(own) && w.asked == old(w.asked)
        invariant faults == old(faults) && (alone ==> run == old(run))
        decreases n
      {
        var s: Step := *;
        if !s.AdmitRead? && !s.AdmitRecord? && !s.AdmitDecide? && Enabled(site, w, s) {
          OthersDoNotAsk(site, w, s);
          Do(s);
        }
        n := n - 1;
      }
    }

    method ReadCounter() returns (r: Option<u64>)
      requires Valid()
      modifies this
      ensures Valid() && Continues(old(run), run) && own == old(own) && w.asked == old(w.asked)
      ensures alone ==> run == old(run)
      ensures r.Some? ==> r == w.counter
      ensures faults == old(faults) + (if r.None? && w.counter.Some? then 1 else 0)
    {
      Interfere();
      var fails: bool := *;
      r := if fails then None else w.counter;
      faults := faults + if r.None? && w.counter.Some? then 1 else 0;
    }

    /** A failure is reported before or after the TPM did it. */
    method Increment() returns (ok: bool)
      requires Valid()
      modifies this
      ensures Valid() && Continues(old(run), run) && w.asked == old(w.asked)
      ensures own == old(own) || own == old(own) + {|run.steps| - 1}
      ensures own != old(own) ==> |run.steps| > |old(run.steps)| && run.steps[|run.steps| - 1].Increment?
      ensures ok ==> |run.steps| > |old(run.steps)| && |run.steps| - 1 !in old(own)
      ensures ok ==> own == old(own) + {|run.steps| - 1}
      ensures alone ==> w.record == old(w.record) && w.sig == old(w.sig)
      ensures alone && ok ==> old(w.counter).Some? && w.counter.Some? && w.counter.value == old(w.counter).value + 1
      ensures alone && own == old(own) ==> run == old(run)
      ensures alone && !ok && old(w.counter).Some? && old(w.counter).value < U64_MAX ==> faults > old(faults)
      ensures old(faults) <= faults && (!ok ==> faults > old(faults) || Stuck(run, |old(run.steps)|, |run.steps|))
    {
      Interfere();
      if w.counter.None? || w.counter.value == U64_MAX {
        return false;
      }
      ok := *;
      faults := faults + if ok then 0 else 1;
      var happens: bool := *;
      if ok || happens {
        Do(StopRuns.Increment);
        own := own + {|run.steps| - 1};
      }
    }

    /** `TPM2_NV_Certify` of the stop counter: 8 bytes from offset 0. */
    method Certify(qualifying: Bytes) returns (r: Option<(Bytes, Bytes)>)
      requires Valid() && |qualifying| == 32
      modifies this
      ensures Valid() && Continues(old(run), run) && own == old(own) && w.asked == old(w.asked)
      ensures r.Some? ==>
                && |run.steps| > |old(run.steps)|
                && SignedAt(site, run, |run.steps| - 1, r.value.0)
                && IsCertify(run.steps[|run.steps| - 1], qualifying)
                && r.value.1 == sign(r.value.0)
      ensures faults == old(faults) + (if r.None? && w.counter.Some? then 1 else 0)
    {
      Interfere();
      var fails: bool := *;
      var signer: Bytes, firmware: Bytes := *, *;
      if fails || w.counter.None? || !Fits2b(signer) || |firmware| != 8 {
        faults := faults + if w.counter.Some? then 1 else 0;
        return None;
      }
      var s := CertifyStop(signer, qualifying, firmware, 0, 8);
      var attest := SignedBy(site, w, s).value;
      Do(s);
      return Some((attest, sign(attest)));
    }

    /** The selected PCRs of the sha256 bank, concatenated. */
    method PcrRead(bitmap: Bytes) returns (r: Option<Bytes>)
      requires Valid() && |bitmap| == 3
      modifies this
      ensures Valid() && Continues(old(run), run) && own == old(own) && w.asked == old(w.asked)
      ensures r.Some? ==> r.value == SelectedValues(site.sha, w.pcrs, bitmap, PCRS)
      ensures faults == old(faults) + (if r.None? then 1 else 0)
    {
      Interfere();
      var fails: bool := *;
      faults := faults + if fails then 1 else 0;
      r := if fails then None else Some(SelectedValues(site.sha, w.pcrs, bitmap, PCRS));
    }

    /** `TPM2_Quote` over the same selection. */
    method Quote(qualifying: Bytes, bitmap: Bytes) returns (r: Option<(Bytes, Bytes)>)
      requires Valid() && |qualifying| == 32 && |bitmap| == 3
      modifies this
      ensures Valid() && Continues(old(run), run) && own == old(own) && w.asked == old(w.asked)
      ensures r.Some? ==>
                && |run.steps| > |old(run.steps)|
                && SignedAt(site, run, |run.steps| - 1, r.value.0)
                && run.steps[|run.steps| - 1].MakeQuote?
                && run.steps[|run.steps| - 1].qualifying == qualifying
                && run.steps[|run.steps| - 1].banks == OneSha256Bank(bitmap)
                && r.value.1 == sign(r.value.0)
      ensures faults == old(faults) + (if r.None? then 1 else 0)
    {
      Interfere();
      var fails: bool := *;
      var signer: Bytes, firmware: u64 := *, *;
      if fails || !Fits2b(signer) {
        faults := faults + 1;
        return None;
      }
      OneBankIsValid(bitmap);
      var s := MakeQuote(signer, qualifying, firmware, OneSha256Bank(bitmap), []);
      var attest := SignedBy(site, w, s).value;
      Do(s);
      return Some((attest, sign(attest)));
    }

    /** The record file is read at state m, the signature file, if the record calls for it, at the last
        state; other processes may act between the two, and either read may fail. Reading for a call in
        flight is that call's own step. */
    method ReadRelease(call: Option<nat>) returns (r: ReleaseFile, ghost m: nat)
      requires Valid()
      requires call.Some? ==>
                 && call.value in w.asked && w.asked[call.value].CounterRead?
                 && StateOf(w.asked[call.value].value).Running?
      modifies this
      ensures Valid() && Continues(old(run), run) && own == old(own)
      ensures |old(run.steps)| <= m <= |run.steps|
      ensures r.Unreadable? || r == ReadPair(run.states[m].record, w.sig)
      ensures old(faults) <= faults && (faults == old(faults) ==> r == ReadPair(run.states[m].record, w.sig))
      ensures call.None? ==> w.asked == old(w.asked)
      ensures call.Some? ==>
                && m < |run.steps| && run.steps[m] == AdmitRecord(call.value)
                && w.asked == old(w.asked)[
                     call.value := RecordRead(old(w.asked)[call.value].value, run.states[m].record)]
      ensures alone && call.None? ==> run == old(run)
    {
      Interfere();
      var recordFails: bool := *;
      var record := if recordFails then Broken else w.record;
      faults := faults + if recordFails then 1 else 0;
      m := |run.steps|;
      if call.Some? {
        Do(AdmitRecord(call.value));
      }
      if record.Missing? {
        return Absent, m;
      }
      if record.Broken? || |record.bytes| > MAX_RECORD {
        return Unreadable, m;
      }
      Interfere();
      var sigFails: bool := *;
      faults := faults + if sigFails then 1 else 0;
      r := ReadPair(record, if sigFails then Broken else w.sig);
    }

    /** The gate at a counter value: the release is read only when the value is even. */
    method GateNow(counter: u64, call: Option<nat>) returns (g: Option<Gate>, ghost m: nat)
      requires Valid()
      requires call.Some? ==> call.value in w.asked && w.asked[call.value] == CounterRead(counter)
      modifies this
      ensures Valid() && Continues(old(run), run) && own == old(own)
      ensures |old(run.steps)| <= m <= |run.steps|
      ensures g.Some? ==> g == GateAt(site, ReadPair(run.states[m].record, w.sig), counter)
      ensures old(faults) <= faults
      ensures faults == old(faults) ==> g == GateAt(site, ReadPair(run.states[m].record, w.sig), counter)
      ensures call.None? ==> w.asked == old(w.asked)
      ensures call.Some? && StateOf(counter).Stopped? ==> w.asked == old(w.asked)
      ensures call.Some? && StateOf(counter).Running? ==>
                && m < |run.steps| && run.steps[m] == AdmitRecord(call.value)
                && w.asked == old(w.asked)[call.value := RecordRead(counter, run.states[m].record)]
      ensures alone && call.None? ==> run == old(run)
    {
      if StateOf(counter).Stopped? {
        return Some(Shut), |run.steps|;
      }
      var file;
      file, m := ReadRelease(call);
      g := GateAt(site, file, counter);
    }
  }

  /** At some state from p to q the counter could not be counted on: undefined, or at its end. */
  ghost predicate Stuck(run: Run, p: nat, q: nat) {
    exists k | p <= k <= q && k < |run.states| ::
      run.states[k].counter.None? || run.states[k].counter.value == U64_MAX
  }

  /** A certify of all 8 counter bytes with this qualifying data. */
  predicate IsCertify(s: Step, qualifying: Bytes) {
    s.CertifyStop? && s.qualifying == qualifying && s.offset == 0 && s.size == 8
  }

  lemma OthersDoNotAsk(site: Site, w: World, s: Step)
    requires w.Valid() && Enabled(site, w, s) && !s.AdmitRead? && !s.AdmitRecord? && !s.AdmitDecide?
    ensures After(site, w, s).asked == w.asked
  {
    match s
    case Increment =>
    case Extend(_, _) =>
    case _ =>
  }

  function OneSha256Bank(bitmap: Bytes): PcrBanks
    requires |bitmap| == 3
  {
    PcrBanks(1, PutBank(Bank(ALG_SHA256, bitmap)))
  }

  lemma OneBankIsValid(bitmap: Bytes)
    requires |bitmap| == 3
    ensures OneSha256Bank(bitmap).Valid() && OneSha256Bank(bitmap).Entries() == [Bank(ALG_SHA256, bitmap)]
  {
    var k := Bank(ALG_SHA256, bitmap);
    BankPut(k, []);
    assert PutBank(k) + [] == PutBank(k);
    assert WalkBanks([], 0) == Some(([], []));
  }
}
