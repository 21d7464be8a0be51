/** The TPM and the device around it as a step system: what any process on the device can do to the
    stop counter, the PCRs, the boot counts and the release files, and what the AK signs. A run is a
    sequence of such steps in any order. */
module StopRuns {
  import opened Bits
  import opened Bytes
  import opened TpmWire
  import opened StopCodec
  import opened Release

  // ------------------------------------------------------------------ the gate

  /** One file, as opening and reading it finds it. */
  datatype FileState = Missing | Broken | Holds(bytes: Bytes)

  /** What reading the release gives. */
  datatype ReleaseFile = Unreadable | Absent | Present(record: Bytes, sig: Bytes)

  /** The record is read first, then the signature; a longer file is an error, and one file without
      the other counts as none. */
  function ReadPair(record: FileState, sig: FileState): ReleaseFile {
    match record
    case Missing => Absent
    case Broken => Unreadable
    case Holds(r) =>
      if |r| > MAX_RECORD then Unreadable else
        match sig
        case Missing => Absent
        case Broken => Unreadable
        case Holds(s) => if |s| > MAX_SIG then Unreadable else Present(r, s)
  }

  datatype Gate = Open | Shut | Unreleased {
    function State(): State {
      if Open? then Running else Stopped
    }
  }

  /** SHA-256, ECDSA under the operator's key, and the id the device was provisioned with. */
  datatype Site = Site(sha: Bytes -> Digest, operator: (Bytes, Bytes) -> bool, deviceId: Bytes)

  /** The parity of the counter: odd is stopped. */
  function StateOf(counter: u64): State {
    if counter % 2 == 0 then Running else Stopped
  }

  /** The gate at a counter value; `None` when the release cannot be read. */
  function GateAt(site: Site, release: ReleaseFile, counter: u64): Option<Gate> {
    if StateOf(counter).Stopped? then Some(Shut) else
      match release
      case Unreadable => None
      case Absent => Some(Unreleased)
      case Present(record, sig) =>
        Some(if Releases(site.operator, record, sig, site.deviceId, counter) then Open else Unreleased)
  }

  /** The gate is open exactly when the counter is even and the operator signed this device and this
      very value. */
  lemma OpenIff(site: Site, release: ReleaseFile, counter: u64)
    ensures GateAt(site, release, counter) == Some(Open) <==>
            && release.Present? && |release.sig| <= MAX_SIG && site.operator(release.record, release.sig)
            && ValidId(site.deviceId) && counter % 2 == 0
            && release.record == PrintRelease(ReleaseRecord(site.deviceId, counter))
  {
    if release.Present? {
      ReleasesIff(site.operator, release.record, release.sig, site.deviceId, counter);
    }
  }

  /** A gate is shut by the counter alone: exactly at the odd values, whatever the release. */
  lemma ShutIff(site: Site, release: ReleaseFile, counter: u64)
    ensures GateAt(site, release, counter) == Some(Shut) <==> counter % 2 == 1
  {
  }

  /** The gate is no answer exactly for an even value with a release that cannot be read: having none is not
      an error. */
  lemma NoGateIff(site: Site, release: ReleaseFile, counter: u64)
    ensures GateAt(site, release, counter) == None <==> counter % 2 == 0 && release.Unreadable?
  {
  }

  /** An even value is unreleased exactly when there is no release, or the one there is not the operator's
      signature over the canonical record of this device and this value. */
  lemma UnreleasedIff(site: Site, release: ReleaseFile, counter: u64)
    ensures GateAt(site, release, counter) == Some(Unreleased) <==>
            && counter % 2 == 0
            && (release.Absent? ||
                (release.Present? &&
                 !(&& |release.sig| <= MAX_SIG && site.operator(release.record, release.sig)
                   && ValidId(site.deviceId)
                   && release.record == PrintRelease(ReleaseRecord(site.deviceId, counter)))))
  {
    OpenIff(site, release, counter);
    ShutIff(site, release, counter);
    NoGateIff(site, release, counter);
  }

  /** What two files make: no release when the record, or the signature beside a record that can be read, is
      not there; an error exactly when a file that matters cannot be read or is too long. */
  lemma ReadPairIff(record: FileState, sig: FileState)
    ensures ReadPair(record, sig).Absent? <==>
            record.Missing? || (record.Holds? && |record.bytes| <= MAX_RECORD && sig.Missing?)
    ensures ReadPair(record, sig).Unreadable? <==>
            || record.Broken? || (record.Holds? && |record.bytes| > MAX_RECORD)
            || (record.Holds? && |record.bytes| <= MAX_RECORD && (sig.Broken? || (sig.Holds? && |sig.bytes| > MAX_SIG)))
    ensures forall r: Bytes, s: Bytes ::
              ReadPair(record, sig) == Present(r, s) <==>
              record == Holds(r) && sig == Holds(s) && |r| <= MAX_RECORD && |s| <= MAX_SIG
  {
  }

  /** One release opens one value. */
  lemma OneReleaseOneValue(site: Site, release: ReleaseFile, c1: u64, c2: u64)
    requires GateAt(site, release, c1) == Some(Open) && GateAt(site, release, c2) == Some(Open)
    ensures c1 == c2
  {
    ReleaseExact(release.record, ReleaseRecord(site.deviceId, c1));
    ReleaseExact(release.record, ReleaseRecord(site.deviceId, c2));
  }

  // ----------------------------------------------------------------- the state

  const PCRS := 24

  /** How far a call in flight has come: it read the counter, then the record file, and is decided. */
  datatype Asked = CounterRead(value: u64) | RecordRead(value: u64, record: FileState) | Decided

  datatype World = World(
    counter: Option<u64>,       // the stop index; None while it is deleted or not yet written
    highest: u64,               // the highest value any counter of this chip has held
    pcrs: seq<seq<Digest>>,     // per PCR, what was extended since the PCR was last reset
    clock: Clock,
    record: FileState,          // the release files
    sig: FileState,
    asked: map<nat, Asked>)     // calls in flight or decided
  {
    predicate Valid() {
      |pcrs| == PCRS && (counter.Some? ==> counter.value <= highest)
    }
  }

  /** Reset values: all ones for the PCRs of a dynamic launch, zero for the rest. */
  function PcrStart(n: nat): Digest {
    if 17 <= n <= 22 then seq(32, _ => 0xFF) else seq(32, _ => 0)
  }

  function PcrValue(sha: Bytes -> Digest, n: nat, extended: seq<Digest>): Digest {
    if extended == [] then PcrStart(n) else
      sha(PcrValue(sha, n, extended[..|extended| - 1]) + extended[|extended| - 1])
  }

  /** The PCRs any process may reset within a boot: debug and application. */
  predicate Resettable(n: nat) {
    n == 16 || n == 23
  }

  /** Bit n%8 of byte n/8. */
  predicate Selected(bits: Bytes, n: nat)
    requires |bits| == 3 && n < PCRS
  {
    HasBit(bits[n / 8], n % 8)
  }

  /** The selected PCR values, concatenated in ascending order. */
  function SelectedValues(sha: Bytes -> Digest, pcrs: seq<seq<Digest>>, bits: Bytes, n: nat): Bytes
    requires |pcrs| == PCRS && |bits| == 3 && n <= PCRS
  {
    if n == 0 then [] else
      SelectedValues(sha, pcrs, bits, n - 1) +
      (if Selected(bits, n - 1) then PcrValue(sha, n - 1, pcrs[n - 1]) else [])
  }

  function Composite(sha: Bytes -> Digest, pcrs: seq<seq<Digest>>, bits: Bytes): Digest
    requires |pcrs| == PCRS && |bits| == 3
  {
    sha(SelectedValues(sha, pcrs, bits, PCRS))
  }

  // ----------------------------------------------------------------- the steps

  datatype Step =
    | Increment
    | OtherCounter(value: u64)
    | Undefine
    | Define(start: u64)
    | Extend(pcr: nat, digest: Digest)
    | PcrReset(pcr: nat)
    | Restart(kept: seq<seq<Digest>>)
    | Reset(at: u64, safe: bool)
    | Tick(ms: u64)
    | MakeQuote(signer: Bytes, qualifying: Bytes, firmware: u64, banks: PcrBanks, otherBank: Bytes)
    | CertifyStop(signer: Bytes, qualifying: Bytes, firmwareBytes: Bytes, offset: u16, size: u16)
    | CertifyOther(signer: Bytes, qualifying: Bytes, firmwareBytes: Bytes, public: NvPublic, name: Bytes,
                   offset: u16, contents: Bytes)
    | SignOther(bytes: Bytes)
    | ReplaceRecord(file: FileState)
    | ReplaceSig(file: FileState)
    | AdmitRead(call: nat)
    | AdmitRecord(call: nat)
    | AdmitDecide(call: nat, allowed: bool)

  /** The AK is restricted: it signs caller-chosen bytes only if they do not start with the TPM's
      magic, and structures the TPM makes carry their own type. */
  predicate NeitherAttestation(b: Bytes) {
    var magic := TakeU32(b);
    || magic.None? || magic.value.0 != TPM_GENERATED_VALUE
    || TakeU16(magic.value.1).None?
    || TakeU16(magic.value.1).value.0 !in {ST_ATTEST_QUOTE, ST_ATTEST_NV}
  }

  /** The name of an index defined by `public`: over SHA-256 when that is its name algorithm, under
      another algorithm id otherwise. */
  predicate NamesIndex(site: Site, public: NvPublic, name: Bytes) {
    && Fits2b(public.authPolicy)
    && if public.nameAlg == ALG_SHA256 then name == PutU16(ALG_SHA256) + site.sha(PutNvPublic(public))
       else PutU16(public.nameAlg) <= name
  }

  predicate Enabled(site: Site, w: World, s: Step) {
    match s
    case Increment => w.counter.Some? && w.counter.value < U64_MAX
    case OtherCounter(value) => true
    case Undefine => true
    // A counter defined again goes on from the highest value, never below it.
    case Define(start) => w.counter.None? && start >= w.highest
    case Extend(pcr, _) => pcr < PCRS
    case PcrReset(pcr) => Resettable(pcr)
    case Restart(kept) => |kept| == PCRS && w.clock.restartCount < 0xFFFF_FFFF
    case Reset(_, _) => w.clock.resetCount < 0xFFFF_FFFF
    case Tick(ms) => w.clock.clock + ms <= U64_MAX
    case MakeQuote(signer, qualifying, _, banks, other) =>
      Fits2b(signer) && Fits2b(qualifying) && banks.Valid() && Fits2b(other)
    case CertifyStop(signer, qualifying, fw, offset, size) =>
      w.counter.Some? && Fits2b(signer) && Fits2b(qualifying) && |fw| == 8 && offset + size <= 8
    case CertifyOther(signer, qualifying, fw, public, name, _, contents) =>
      && Fits2b(signer) && Fits2b(qualifying) && |fw| == 8 && Fits2b(contents) && Fits2b(name)
      && public != STOP_PUBLIC && NamesIndex(site, public, name)
    case SignOther(bytes) => NeitherAttestation(bytes)
    case ReplaceRecord(_) => true
    case ReplaceSig(_) => true
    case AdmitRead(call) => call !in w.asked && w.counter.Some?
    case AdmitRecord(call) => call in w.asked && w.asked[call].CounterRead? && StateOf(w.asked[call].value).Running?
    // An odd value is refused without a look at the release.
    case AdmitDecide(call, allowed) =>
      && call in w.asked && !w.asked[call].Decided?
      && (w.asked[call].CounterRead? ==> StateOf(w.asked[call].value).Stopped? && !allowed)
      && (w.asked[call].RecordRead? ==>
            (allowed <==> GateAt(site, ReadPair(w.asked[call].record, w.sig), w.asked[call].value) == Some(Open)))
  }

  function After(site: Site, w: World, s: Step): World
    requires w.Valid() && Enabled(site, w, s)
  {
    match s
    case Increment =>
      var v: u64 := w.counter.value + 1;
      w.(counter := Some(v), highest := if v > w.highest then v else w.highest)
    case OtherCounter(value) => w.(highest := if value > w.highest then value else w.highest)
    case Undefine => w.(counter := None)
    case Define(start) => w.(counter := Some(start), highest := start)
    case Extend(pcr, digest) => w.(pcrs := w.pcrs[pcr := w.pcrs[pcr] + [digest]])
    case PcrReset(pcr) => w.(pcrs := w.pcrs[pcr := []])
    case Restart(kept) => w.(pcrs := kept, clock := w.clock.(restartCount := w.clock.restartCount + 1))
    case Reset(at, safe) =>
      w.(pcrs := seq(PCRS, _ => []), clock := Clock(at, w.clock.resetCount + 1, 0, safe))
    case Tick(ms) => w.(clock := w.clock.(clock := w.clock.clock + ms))
    case ReplaceRecord(file) => w.(record := file)
    case ReplaceSig(file) => w.(sig := file)
    case AdmitRead(call) => w.(asked := w.asked[call := CounterRead(w.counter.value)])
    case AdmitRecord(call) => w.(asked := w.asked[call := RecordRead(w.asked[call].value, w.record)])
    case AdmitDecide(call, _) => w.(asked := w.asked[call := Decided])
    case _ => w
  }

  /** The quote the TPM makes: digest over the PCRs as they are, in the one bank it was asked for. */
  function QuoteMade(site: Site, w: World, s: Step): Quote
    requires w.Valid() && s.MakeQuote? && Enabled(site, w, s)
  {
    var banks := s.banks.Entries();
    var digest := if |banks| == 1 && banks[0].alg == ALG_SHA256 && |banks[0].bits| == 3
                  then Composite(site.sha, w.pcrs, banks[0].bits) else s.otherBank;
    Quote(Head(s.signer, s.qualifying, w.clock), s.firmware, s.banks, digest)
  }

  function CertifyMade(site: Site, w: World, s: Step): NvAttest
    requires (s.CertifyStop? || s.CertifyOther?) && Enabled(site, w, s)
  {
    if s.CertifyStop? then
      NvAttest(Head(s.signer, s.qualifying, w.clock), StopIndexName(site.sha), s.offset,
               PutU64(w.counter.value)[s.offset as nat..s.offset as nat + s.size as nat])
    else
      NvAttest(Head(s.signer, s.qualifying, w.clock), s.name, s.offset, s.contents)
  }

  /** What the AK signs at this step, if anything. */
  function SignedBy(site: Site, w: World, s: Step): Option<Bytes>
    requires w.Valid() && Enabled(site, w, s)
  {
    match s
    case MakeQuote(_, _, _, _, _) => Some(PutQuote(QuoteMade(site, w, s)))
    case CertifyStop(_, _, fw, _, _) => Some(PutNvAttest(CertifyMade(site, w, s), fw))
    case CertifyOther(_, _, fw, _, _, _, _) => Some(PutNvAttest(CertifyMade(site, w, s), fw))
    case SignOther(bytes) => Some(bytes)
    case _ => None
  }

  // ------------------------------------------------------------------- runs

  datatype Run = Run(states: seq<World>, steps: seq<Step>)

  ghost predicate ValidRun(site: Site, run: Run) {
    && |run.states| == |run.steps| + 1
    && run.states[0].Valid() && run.states[0].asked == map[]
    && forall i | 0 <= i < |run.steps| :: StepAt(site, run, i)
  }

  ghost predicate StepAt(site: Site, run: Run, i: nat)
    requires i < |run.steps| < |run.states|
  {
    && run.states[i].Valid()
    && Enabled(site, run.states[i], run.steps[i])
    && run.states[i + 1] == After(site, run.states[i], run.steps[i])
  }

  /** Step i signed `m` under the AK. */
  ghost predicate SignedAt(site: Site, run: Run, i: nat, m: Bytes) {
    && i < |run.steps| < |run.states|
    && StepAt(site, run, i)
    && SignedBy(site, run.states[i], run.steps[i]) == Some(m)
  }

  /** Signatures verify under the AK only over what the AK signed in the run. */
  ghost predicate Unforgeable(site: Site, run: Run, ak: (Bytes, Bytes) -> bool) {
    forall m: Bytes, sig: Bytes :: ak(m, sig) ==> exists i: nat :: SignedAt(site, run, i, m)
  }

  lemma {:induction false} StatesAreValid(site: Site, run: Run, i: nat)
    requires ValidRun(site, run) && i < |run.states|
    ensures run.states[i].Valid()
  {
    if i > 0 {
      assert StepAt(site, run, i - 1);
    }
  }

  // ------------------------------------------------------- what a boot keeps

  predicate BootStep(s: Step) {
    s.Reset? || s.Restart?
  }

  ghost predicate NoBootStep(run: Run, i: nat, k: nat) {
    forall j | i <= j < k && j < |run.steps| :: !BootStep(run.steps[j])
  }

  predicate BootLeq(a: Clock, b: Clock) {
    a.resetCount < b.resetCount || (a.resetCount == b.resetCount && a.restartCount <= b.restartCount)
  }

  /** Boots only move forward, so equal counts at two states mean no reset and no restart between
      them, and the clock is no lower at the later one. */
  lemma {:induction false} SameBootNoBootStep(site: Site, run: Run, i: nat, k: nat)
    requires ValidRun(site, run) && i <= k < |run.states|
    ensures BootLeq(run.states[i].clock, run.states[k].clock)
    ensures run.states[i].clock.SameBoot(run.states[k].clock) ==>
              NoBootStep(run, i, k) && run.states[i].clock.clock <= run.states[k].clock.clock
  {
    if i < k {
      SameBootNoBootStep(site, run, i, k - 1);
      assert StepAt(site, run, k - 1);
    }
  }

  /** Without a boot in between a PCR that is not resettable is only ever extended. */
  lemma {:induction false} PcrsOnlyGrow(site: Site, run: Run, i: nat, k: nat, n: nat)
    requires ValidRun(site, run) && i <= k < |run.states| && NoBootStep(run, i, k) && n < PCRS && !Resettable(n)
    requires run.states[i].Valid() && run.states[k].Valid()
    ensures run.states[i].pcrs[n] <= run.states[k].pcrs[n]
  {
    if i < k {
      assert StepAt(site, run, k - 1);
      PcrsOnlyGrow(site, run, i, k - 1, n);
      assert !BootStep(run.steps[k - 1]);
    }
  }

  // ----------------------------------------------- what the counter never does

  /** After it held `a`, the counter never holds less, whatever is deleted, redefined or incremented. */
  lemma {:induction false} CounterNeverFallsBelow(site: Site, run: Run, i: nat, k: nat)
    requires ValidRun(site, run) && i <= k < |run.states| && run.states[i].counter.Some?
    ensures run.states[k].highest >= run.states[i].counter.value
    ensures run.states[k].counter.Some? ==> run.states[k].counter.value >= run.states[i].counter.value
  {
    StatesAreValid(site, run, i);
    if i < k {
      CounterNeverFallsBelow(site, run, i, k - 1);
      assert StepAt(site, run, k - 1);
    }
  }

  /** Equal at both ends, the counter was that value or undefined throughout, and nobody incremented it. */
  lemma CounterHeldBetween(site: Site, run: Run, i: nat, j: nat, c: u64)
    requires ValidRun(site, run) && i <= j < |run.states|
    requires run.states[i].counter == Some(c) == run.states[j].counter
    ensures forall k | i <= k <= j :: run.states[k].counter == None || run.states[k].counter == Some(c)
    ensures forall k | i <= k < j :: !run.steps[k].Increment?
  {
    forall k | i <= k <= j
      ensures run.states[k].counter == None || run.states[k].counter == Some(c)
    {
      CounterNeverFallsBelow(site, run, i, k);
      if run.states[k].counter.Some? {
        CounterNeverFallsBelow(site, run, k, j);
      }
    }
    forall k | i <= k < j
      ensures !run.steps[k].Increment?
    {
      assert StepAt(site, run, k);
      assert run.states[k + 1].counter == None || run.states[k + 1].counter == Some(c);
    }
  }

  // ------------------------------------------------------------ calls in flight

  /** The value a call read stays with it until it is decided. */
  lemma {:induction false} AskedStays(site: Site, run: Run, k: nat, d: nat)
    requires ValidRun(site, run) && k < d < |run.states| && run.steps[k].AdmitRead?
    ensures var call := run.steps[k].call;
            && call in run.states[d].asked
            && (run.states[d].asked[call].Decided? || Some(run.states[d].asked[call].value) == run.states[k].counter)
  {
    assert StepAt(site, run, k);
    if k + 1 < d {
      AskedStays(site, run, k, d - 1);
      assert StepAt(site, run, d - 1);
    }
  }

  /** So does the record it read. */
  lemma {:induction false} RecordStays(site: Site, run: Run, m: nat, d: nat)
    requires ValidRun(site, run) && m < d < |run.states| && run.steps[m].AdmitRecord?
    ensures var call := run.steps[m].call;
            && call in run.states[d].asked && !run.states[d].asked[call].CounterRead?
            && (run.states[d].asked[call].RecordRead? ==> run.states[d].asked[call].record == run.states[m].record)
  {
    assert StepAt(site, run, m);
    if m + 1 < d {
      RecordStays(site, run, m, d - 1);
      assert StepAt(site, run, d - 1);
    }
  }

  /** Every call in flight read its value at an earlier step, and its record, if it has one, after that. */
  lemma {:induction false} AskedWasRead(site: Site, run: Run, d: nat, call: nat) returns (k: nat, m: nat)
    requires ValidRun(site, run) && d < |run.states|
    requires call in run.states[d].asked && !run.states[d].asked[call].Decided?
    ensures k < d && run.steps[k] == AdmitRead(call) && run.states[k].counter == Some(run.states[d].asked[call].value)
    ensures run.states[d].asked[call].RecordRead? ==>
              && k < m < d && run.steps[m] == AdmitRecord(call)
              && run.states[m].record == run.states[d].asked[call].record
              && run.states[d].asked[call].value % 2 == 0
  {
    assert StepAt(site, run, d - 1);
    if run.steps[d - 1] == AdmitRead(call) {
      k, m := d - 1, d - 1;
    } else if run.steps[d - 1] == AdmitRecord(call) {
      k, m := AskedWasRead(site, run, d - 1, call);
      m := d - 1;
    } else {
      k, m := AskedWasRead(site, run, d - 1, call);
    }
  }

  // -------------------------------------------------- who signed an attestation

  lemma NeitherParses(b: Bytes)
    requires NeitherAttestation(b)
    ensures DecodeQuote(b).None? && DecodeNvAttest(b).None?
  {
  }

  /** What the AK signs tells which step made it, and with what content. */
  lemma SignedIs(site: Site, w: World, s: Step, m: Bytes)
    requires w.Valid() && Enabled(site, w, s) && SignedBy(site, w, s) == Some(m)
    ensures s.MakeQuote? || s.CertifyStop? || s.CertifyOther? || s.SignOther?
    ensures s.MakeQuote? ==> DecodeQuote(m) == Some(QuoteMade(site, w, s))
    ensures s.CertifyStop? || s.CertifyOther? ==> DecodeNvAttest(m) == Some(CertifyMade(site, w, s))
    ensures s.SignOther? ==> DecodeQuote(m).None? && DecodeNvAttest(m).None?
  {
    match s
    case MakeQuote(_, _, _, _, _) =>
      QuoteExact(m, QuoteMade(site, w, s));
    case CertifyStop(_, _, fw, _, _) =>
      NvAttestPut(CertifyMade(site, w, s), fw);
    case CertifyOther(_, _, fw, _, _, _, _) =>
      NvAttestPut(CertifyMade(site, w, s), fw);
    case SignOther(bytes) =>
      NeitherParses(bytes);
    case _ =>
  }

  /** Bytes that parse as a quote were signed, if at all, by a quote step, and say what the TPM's
      state was at that step. */
  lemma QuoteCameFromTheTpm(site: Site, run: Run, i: nat, m: Bytes)
    requires SignedAt(site, run, i, m) && DecodeQuote(m).Some?
    ensures run.steps[i].MakeQuote? && DecodeQuote(m) == Some(QuoteMade(site, run.states[i], run.steps[i]))
  {
    hide DecodeQuote, DecodeNvAttest, SignedBy;
    NoBytesAreBoth(m);
    SignedIs(site, run.states[i], run.steps[i], m);
  }

  /** Bytes that parse as an NV attestation were signed, if at all, by a certify step. */
  lemma CertifyCameFromTheTpm(site: Site, run: Run, i: nat, m: Bytes)
    requires SignedAt(site, run, i, m) && DecodeNvAttest(m).Some?
    ensures run.steps[i].CertifyStop? || run.steps[i].CertifyOther?
    ensures DecodeNvAttest(m) == Some(CertifyMade(site, run.states[i], run.steps[i]))
  {
    hide DecodeQuote, DecodeNvAttest, SignedBy;
    NoBytesAreBoth(m);
    SignedIs(site, run.states[i], run.steps[i], m);
  }
}
