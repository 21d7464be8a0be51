/** Gate 3: what an authenticated envelope says about the device's state, appraised against the
    reference set of a manifest. */
module Gate3 {
  import opened Bytes
  import opened Envelope
  import opened StopVerify
  import opened StopRuns
  import opened Gate1
  import opened Rim

  datatype Reason = Accepted | UnrecognizedState | EvidenceUnparseable | EvidenceMissing(kind: EvidenceKind)

  // ------------------------------------------------------------ evidence kinds

  function KindOf(tag: u16): Option<EvidenceKind> {
    if tag == TAG_TPM_QUOTE then Some(HostQuote)
    else if tag == TAG_GPU_ATTEST then Some(GpuAttest)
    else if tag == TAG_CPU_TEE then Some(CpuTee)
    else None
  }

  /** The kinds a bundle presents, in order of first appearance. */
  function KindsOf(sections: seq<Section>): seq<EvidenceKind> {
    if sections == [] then [] else
      var before := KindsOf(sections[..|sections| - 1]);
      var kind := KindOf(sections[|sections| - 1].tag);
      if kind.Some? && kind.value !in before then before + [kind.value] else before
  }

  /** The tag of a kind of evidence on the wire. */
  function TagOf(k: EvidenceKind): u16 {
    match k
    case HostQuote => 0x0001
    case GpuAttest => 0x0002
    case CpuTee => 0x0003
  }

  lemma KindOfIff(tag: u16, k: EvidenceKind)
    ensures KindOf(tag) == Some(k) <==> tag == TagOf(k)
  {
  }

  ghost predicate Shows(sections: seq<Section>, k: EvidenceKind) {
    exists j :: 0 <= j < |sections| && sections[j].tag == TagOf(k)
  }

  /** The first section of kind `a` comes before any of kind `b`. */
  ghost predicate Earlier(sections: seq<Section>, a: EvidenceKind, b: EvidenceKind) {
    exists p :: 0 <= p < |sections| && sections[p].tag == TagOf(a)
      && forall q | 0 <= q <= p :: sections[q].tag != TagOf(b)
  }

  /** Each presented kind once, and no other, in order of first appearance; unknown tags are passed over. */
  lemma {:induction false} KindsExact(sections: seq<Section>)
    ensures forall k :: k in KindsOf(sections) <==> Shows(sections, k)
    ensures forall i, j | 0 <= i < j < |KindsOf(sections)| ::
              && KindsOf(sections)[i] != KindsOf(sections)[j]
              && Earlier(sections, KindsOf(sections)[i], KindsOf(sections)[j])
  {
    if sections != [] {
      var init, last := sections[..|sections| - 1], sections[|sections| - 1];
      KindsExact(init);
      forall k
        ensures Shows(sections, k) <==> Shows(init, k) || last.tag == TagOf(k)
      {
        if j :| 0 <= j < |init| && init[j].tag == TagOf(k) {
          assert sections[j] == init[j];
        }
        if j :| 0 <= j < |sections| && sections[j].tag == TagOf(k) {
          assert j < |init| ==> init[j] == sections[j];
        }
      }
      forall k
        ensures KindOf(last.tag) == Some(k) <==> last.tag == TagOf(k)
      {
        KindOfIff(last.tag, k);
      }
      var before, after := KindsOf(init), KindsOf(sections);
      hide KindOf;
      forall i, j | 0 <= i < j < |after|
        ensures after[i] != after[j] && Earlier(sections, after[i], after[j])
      {
        assert before[i] == after[i];
        if j < |before| {
          EarlierStays(init, last, after[i], after[j]);
        } else {
          NewIsLater(init, last, after[i], after[j]);
        }
      }
    }
  }

  lemma EarlierStays(init: seq<Section>, last: Section, a: EvidenceKind, b: EvidenceKind)
    requires Earlier(init, a, b)
    ensures Earlier(init + [last], a, b)
  {
    var sections := init + [last];
    var p :| 0 <= p < |init| && init[p].tag == TagOf(a) && forall q | 0 <= q <= p :: init[q].tag != TagOf(b);
    assert sections[p] == init[p] && forall q | 0 <= q <= p :: sections[q] == init[q];
  }

  lemma NewIsLater(init: seq<Section>, last: Section, a: EvidenceKind, b: EvidenceKind)
    requires Shows(init, a) && !Shows(init, b)
    ensures Earlier(init + [last], a, b)
  {
    var sections := init + [last];
    var p :| 0 <= p < |init| && init[p].tag == TagOf(a);
    assert sections[p] == init[p] && forall q | 0 <= q <= p :: sections[q] == init[q];
  }

  method PresentedKinds(bundle: Bytes) returns (r: Option<seq<EvidenceKind>>)
    ensures r.Some? <==> DecodeBundle(bundle).Some?
    ensures r.Some? ==> r.value == KindsOf(DecodeBundle(bundle).value)
  {
    hide DecodeBundle, KindOf;
    var sections := ParseBundle(bundle);
    if sections.None? {
      return None;
    }
    var ss := sections.value;
    var out: seq<EvidenceKind> := [];
    for i := 0 to |ss|
      invariant out == KindsOf(ss[..i])
    {
      assert ss[..i + 1][..i] == ss[..i];
      var kind := KindOf(ss[i].tag);
      if kind.Some? {
        if kind.value !in out {
          out := out + [kind.value];
        }
      }
    }
    assert ss[..|ss|] == ss;
    return Some(out);
  }

  // ------------------------------------------------------------------ the gate

  function FirstMissing(required: seq<EvidenceKind>, presented: seq<EvidenceKind>): Option<EvidenceKind> {
    if required == [] then None
    else if required[0] !in presented then Some(required[0])
    else FirstMissing(required[1..], presented)
  }

  function Appraise(auth: Authenticated, refs: ReferenceSet): Reason {
    match DecodeBundle(auth.evidence)
    case None => EvidenceUnparseable
    case Some(sections) => Judge(auth.pcrSelection, auth.pcrHash, KindsOf(sections), refs)
  }

  function Judge(selection: Bytes, composite: Bytes, presented: seq<EvidenceKind>, refs: ReferenceSet): Reason {
    if selection != refs.selection then UnrecognizedState
    else if composite !in refs.allowed then UnrecognizedState
    else
      match FirstMissing(refs.required, presented)
      case Some(kind) => EvidenceMissing(kind)
      case None => Accepted
  }

  /** The reported kind is the first of the profile the bundle does not present. */
  lemma {:induction false} FirstMissingExact(required: seq<EvidenceKind>, presented: seq<EvidenceKind>)
    ensures FirstMissing(required, presented).None? <==> forall j | 0 <= j < |required| :: required[j] in presented
    ensures FirstMissing(required, presented).Some? ==>
              exists j :: 0 <= j < |required| && required[j] == FirstMissing(required, presented).value
                          && required[j] !in presented && forall i | 0 <= i < j :: required[i] in presented
  {
    if required != [] && required[0] in presented {
      var tail := required[1..];
      FirstMissingExact(tail, presented);
      if FirstMissing(tail, presented).Some? {
        var j :| 0 <= j < |tail| && tail[j] == FirstMissing(tail, presented).value && tail[j] !in presented
                 && forall i | 0 <= i < j :: tail[i] in presented;
        assert required[j + 1] == tail[j];
        assert forall i | 0 <= i < j + 1 :: i == 0 || required[i] == tail[i - 1];
      }
      if forall j | 0 <= j < |tail| :: tail[j] in presented {
        assert forall j | 0 <= j < |required| :: j == 0 || required[j] == tail[j - 1];
      } else {
        var j :| 0 <= j < |tail| && tail[j] !in presented;
        assert required[j + 1] == tail[j];
      }
    }
  }

  /** The verdict, heaviest layer first: an unreadable bundle, then the state, then the first missing
      kind; accepted when the selection and the composite are known and every required kind is shown. */
  lemma AppraiseIff(auth: Authenticated, refs: ReferenceSet)
    ensures Appraise(auth, refs) == EvidenceUnparseable <==> DecodeBundle(auth.evidence).None?
    ensures Appraise(auth, refs) == UnrecognizedState <==>
            && DecodeBundle(auth.evidence).Some?
            && (auth.pcrSelection != refs.selection || auth.pcrHash !in refs.allowed)
    ensures Appraise(auth, refs) == Accepted <==>
            && DecodeBundle(auth.evidence).Some?
            && auth.pcrSelection == refs.selection && auth.pcrHash in refs.allowed
            && forall j | 0 <= j < |refs.required| :: Shows(DecodeBundle(auth.evidence).value, refs.required[j])
    ensures Appraise(auth, refs).EvidenceMissing? ==>
              exists j :: 0 <= j < |refs.required| && refs.required[j] == Appraise(auth, refs).kind
                          && !Shows(DecodeBundle(auth.evidence).value, refs.required[j])
                          && forall i | 0 <= i < j :: Shows(DecodeBundle(auth.evidence).value, refs.required[i])
  {
    hide DecodeBundle, Shows, KindsOf, FirstMissing;
    if DecodeBundle(auth.evidence).Some? {
      var sections := DecodeBundle(auth.evidence).value;
      KindsExact(sections);
      FirstMissingExact(refs.required, KindsOf(sections));
      if FirstMissing(refs.required, KindsOf(sections)).Some? {
        var kind := FirstMissing(refs.required, KindsOf(sections)).value;
        var j :| 0 <= j < |refs.required| && refs.required[j] == kind && kind !in KindsOf(sections)
                 && forall i | 0 <= i < j :: refs.required[i] in KindsOf(sections);
        assert !Shows(sections, refs.required[j]) && forall i | 0 <= i < j :: Shows(sections, refs.required[i]);
      }
    }
  }

  // -------------------------------------------------------- acceptance is a boot

  /** Concatenated values of one selection are equal only value by value. */
  lemma {:induction false} ConcatTellsValues(v: seq<Digest>, w: seq<Digest>, bits: Bytes, n: nat)
    requires |v| == PCRS == |w| && |bits| == 3 && n <= PCRS
    requires Concat(v, bits, n) == Concat(w, bits, n)
    ensures forall i: nat | i < n && Selected(bits, i) :: v[i] == w[i]
  {
    hide Selected;
    if n > 0 {
      var cv, cw := Concat(v, bits, n - 1), Concat(w, bits, n - 1);
      if Selected(bits, n - 1) {
        JoinSplit(Concat(v, bits, n), cv, v[n - 1]);
        JoinSplit(Concat(w, bits, n), cw, w[n - 1]);
        assert Concat(v, bits, n) == cv + v[n - 1];
        assert Concat(w, bits, n) == cw + w[n - 1];
      } else {
        assert Concat(v, bits, n) == cv + [] == cv;
        assert Concat(w, bits, n) == cw + [] == cw;
      }
      ConcatTellsValues(v, w, bits, n - 1);
    }
  }

  /** What the TPM hashes for a quote is the concatenation of its current PCR values. */
  lemma {:induction false} ConcatOfATpm(sha: Bytes -> Digest, pcrs: seq<seq<Digest>>, v: seq<Digest>, bits: Bytes,
                                        n: nat)
    requires |pcrs| == PCRS == |v| && |bits| == 3 && n <= PCRS
    requires forall i: nat | i < PCRS :: v[i] == PcrValue(sha, i, pcrs[i])
    ensures SelectedValues(sha, pcrs, bits, n) == Concat(v, bits, n)
  {
    hide Selected, PcrValue;
    if n > 0 {
      ConcatOfATpm(sha, pcrs, v, bits, n - 1);
    }
  }

  /** Gate 3 against a manifest, for a composite hashed over 24 PCR values. A device booted from one
      slot is accepted; and whatever is accepted was booted from one slot, or the composite of such a
      device (slot `s`, values `w`) collides with it under SHA-256. */
  lemma AcceptedIffBootedFromOneSlot(sha: Bytes -> Digest, m: Manifest, refs: ReferenceSet, auth: Authenticated,
                                     v: seq<Digest>)
    returns (s: Option<Bytes>, w: seq<Digest>)
    requires WellFormed(m) && IsReferenceOf(sha, m, refs) && DecodeBundle(auth.evidence).Some?
    requires auth.pcrSelection == refs.selection && |v| == PCRS
    requires auth.pcrHash == sha(Concat(v, refs.selection[2..], PCRS))
    ensures (exists slot: Option<Bytes> :: BootsFrom(m, slot, v)) ==> Appraise(auth, refs) == Accepted
    ensures Appraise(auth, refs) == Accepted ==>
              && BootsFrom(m, s, w)
              && (BootsFrom(m, s, v) ||
                  Collision(sha, Concat(w, refs.selection[2..], PCRS), Concat(v, refs.selection[2..], PCRS)))
  {
    hide DecodeBundle, Selected, WellFormed, Lists, IsSlot;
    var bits := refs.selection[2..];
    s, w := None, v;
    AppraiseIff(auth, refs);
    if slot: Option<Bytes> :| BootsFrom(m, slot, v) {
      assert Presents(sha, m, bits, auth.pcrHash, slot, v);
    }
    if Appraise(auth, refs) == Accepted {
      s, w :| Presents(sha, m, bits, auth.pcrHash, s, w);
      if Concat(w, bits, PCRS) == Concat(v, bits, PCRS) {
        ConcatTellsValues(w, v, bits, PCRS);
        SelectedAreKeyed(m, bits);
      }
    }
  }

  lemma SelectedAreKeyed(m: Manifest, bits: Bytes)
    requires WellFormed(m) && |bits| == 3
    requires forall n: nat | n < PCRS :: Selected(bits, n) <==> n in m.selection
    ensures forall n: u8 | n in m.values && n < PCRS :: Selected(bits, n)
  {
  }

  /** End to end: a v2 envelope that authenticates and is accepted rests on a quote of a TPM whose
      selected PCRs held, at that moment, values of one slot of the manifest - short of a collision. */
  lemma AcceptedEnvelopeIsABootedDevice(site: Site, run: Run, e: Presented, entryFor: Bytes -> Option<TrustEntry>,
                                        m: Manifest, refs: ReferenceSet)
    returns (q: nat, v: seq<Digest>, s: Option<Bytes>, w: seq<Digest>)
    requires WellFormed(m) && IsReferenceOf(site.sha, m, refs) && ValidRun(site, run)
    requires AuthenticateEnvelope(site.sha, e, entryFor).Ok?
    requires AuthenticateEnvelope(site.sha, e, entryFor).value.binding == TpmQuote
    requires var entry := entryFor(AuthenticateEnvelope(site.sha, e, entryFor).value.deviceId);
             entry.Some? ==> Unforgeable(site, run, entry.value.verifies)
    requires Appraise(AuthenticateEnvelope(site.sha, e, entryFor).value, refs) == Accepted
    ensures SignedAt(site, run, q, e.attest.value) && run.steps[q].MakeQuote?
    ensures |v| == PCRS && |run.states[q].pcrs| == PCRS
    ensures forall n: nat | n < PCRS :: v[n] == PcrValue(site.sha, n, run.states[q].pcrs[n])
    ensures BootsFrom(m, s, w)
    ensures BootsFrom(m, s, v) ||
            Collision(site.sha, Concat(w, refs.selection[2..], PCRS), Concat(v, refs.selection[2..], PCRS))
  {
    hide DecodeBundle, AuthenticateEnvelope, Selected, WellFormed, BootsFrom, Unforgeable, ValidRun;
    var a := AuthenticateEnvelope(site.sha, e, entryFor).value;
    AppraiseIff(a, refs);
    q := V2RestsOnATpmQuote(site, run, e, entryFor);
    var pcrs := run.states[q].pcrs;
    v := seq(PCRS, n requires 0 <= n < PCRS => PcrValue(site.sha, n, pcrs[n]));
    ConcatOfATpm(site.sha, pcrs, v, refs.selection[2..], PCRS);
    s, w := AcceptedIffBootedFromOneSlot(site.sha, m, refs, a, v);
  }
}
