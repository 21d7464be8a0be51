/** The canonical 93-byte message and the evidence bundle that travels beside it. */
module Envelope {
  import opened Bytes
  import opened TpmWire

  const DEVICE_ID_LEN := 16
  const MSG_LEN := 93
  const SECTION_HEADER_LEN := 6
  const TAG_TPM_QUOTE: u16 := 1
  const TAG_GPU_ATTEST: u16 := 2
  const TAG_CPU_TEE: u16 := 3
  const TAG_STOP_STATE: u16 := 4
  const TAG_VERIFIER_NONCE: u16 := 5
  const TAG_TPM_NV_CERTIFY: u16 := 6

  // ------------------------------------------------------------------ message

  datatype Message = Message(deviceId: Bytes, counter: u64, pcrSelection: Bytes, pcrHash: Bytes, evidenceHash: Bytes) {
    predicate Valid() {
      |deviceId| == DEVICE_ID_LEN && |pcrSelection| == 5 && |pcrHash| == 32 && |evidenceHash| == 32
    }
  }

  function PutMessage(m: Message): (s: Bytes)
    requires m.Valid()
    ensures |s| == MSG_LEN
  {
    m.deviceId + PutU64(m.counter) + m.pcrSelection + m.pcrHash + m.evidenceHash
  }

  function DecodeMessage(b: Bytes): (r: Option<Message>)
    ensures r.Some? ==> r.value.Valid()
  {
    if |b| != MSG_LEN then None else
      Some(Message(b[..16], GetU64(b[16..24]), b[24..29], b[29..61], b[61..]))
  }

  /** The fixed layout: a message is accepted exactly when it is the printing of its fields. */
  lemma MessageExact(b: Bytes, m: Message)
    ensures DecodeMessage(b) == Some(m) <==> m.Valid() && b == PutMessage(m)
  {
    if DecodeMessage(b) == Some(m) {
      PutGet64(b[16..24]);
      assert b == b[..16] + b[16..24] + b[24..29] + b[29..61] + b[61..];
    }
    if m.Valid() && b == PutMessage(m) {
      assert b[..16] == m.deviceId && b[16..24] == PutU64(m.counter) && b[24..29] == m.pcrSelection;
      assert b[29..61] == m.pcrHash && b[61..] == m.evidenceHash;
      GetPut64(m.counter);
    }
  }

  /** A device id as the message carries it: cut to 16 bytes, zero-padded. */
  function PadId(id: Bytes): (s: Bytes)
    ensures |s| == DEVICE_ID_LEN
  {
    if |id| >= DEVICE_ID_LEN then id[..DEVICE_ID_LEN] else id + seq(DEVICE_ID_LEN - |id|, _ => 0)
  }

  /** The id's own bytes as far as they fit, then zeros; so ids that fit and hold no NUL are told apart. */
  lemma PadIdExact(id: Bytes, other: Bytes)
    ensures forall i | 0 <= i < DEVICE_ID_LEN :: PadId(id)[i] == if i < |id| then id[i] else 0
    ensures |id| <= DEVICE_ID_LEN && |other| <= DEVICE_ID_LEN && 0 !in id && 0 !in other ==>
              (PadId(id) == PadId(other) <==> id == other)
  {
    if |id| <= DEVICE_ID_LEN && |other| <= DEVICE_ID_LEN && 0 !in id && 0 !in other {
      if |id| < |other| {
        ShorterPadsToAnother(id, other);
      } else if |other| < |id| {
        ShorterPadsToAnother(other, id);
      } else {
        assert id == PadId(id)[..|id|] && other == PadId(other)[..|id|];
      }
    }
  }

  lemma ShorterPadsToAnother(a: Bytes, b: Bytes)
    requires |a| < |b| <= DEVICE_ID_LEN && 0 !in b
    ensures PadId(a) != PadId(b)
  {
    assert PadId(a)[|a|] == 0 && PadId(b)[|a|] == b[|a|] && b[|a|] in b;
  }

  /** `encode_pcr_selection`: algorithm id, then the 3-byte bitmap. */
  function PutSelection(alg: u16, bitmap: Bytes): (s: Bytes)
    requires |bitmap| == 3
    ensures |s| == 5
  {
    PutU16(alg) + bitmap
  }

  /** The fields `build_canonical` prints: both digests are taken here, never handed in. */
  function Canonical(sha: Bytes -> Digest, id: Bytes, counter: u64, selection: Bytes, pcrState: Bytes, evidence: Bytes)
    : (m: Message)
    requires |selection| == 5
    ensures m.Valid()
  {
    Message(PadId(id), counter, selection, sha(pcrState), sha(evidence))
  }

  // ------------------------------------------------------------------- bundle

  datatype Section = Section(tag: u16, body: Bytes) {
    predicate Valid() {
      !TagForbidden(tag) && |body| < 0x1_0000_0000
    }
  }

  predicate TagForbidden(tag: u16) {
    tag == 0x0000 || tag == 0xFFFF
  }

  ghost predicate AllValid(ss: seq<Section>) {
    forall s | s in ss :: s.Valid()
  }

  function PutSection(s: Section): Bytes
    requires s.Valid()
  {
    PutU16(s.tag) + (PutU32(|s.body|) + s.body)
  }

  ghost function PutBundle(ss: seq<Section>): Bytes
    requires AllValid(ss)
  {
    if ss == [] then [] else PutSection(ss[0]) + PutBundle(ss[1..])
  }

  /** What one step of the section iterator yields, and what it leaves. */
  function TakeSection(b: Bytes): (r: Option<(Section, Bytes)>)
    ensures r.Some? ==> |r.value.1| < |b|
  {
    var (tag, b1) :- TakeU16(b);
    var (len, b2) :- TakeU32(b1);
    if TagForbidden(tag) then None else
      var (body, rest) :- SplitAt(b2, len);
      Some((Section(tag, body), rest))
  }

  function DecodeBundle(b: Bytes): Option<seq<Section>>
    decreases |b|
  {
    if b == [] then Some([]) else
      var (s, rest) :- TakeSection(b);
      var ss :- DecodeBundle(rest);
      Some([s] + ss)
  }

  lemma SectionPut(s: Section, rest: Bytes)
    requires s.Valid()
    ensures TakeSection(PutSection(s) + rest) == Some((s, rest))
  {
    var b2 := s.body + rest;
    var b1 := PutU32(|s.body|) + b2;
    Glue(PutU16(s.tag) + b1, PutU16(s.tag), b1, PutU32(|s.body|) + s.body, rest);
    U16Put(s.tag, b1);
    U32Put(|s.body|, b2);
    SplitPut(s.body, rest);
  }

  lemma SectionTook(b: Bytes)
    requires TakeSection(b).Some?
    ensures TakeSection(b).value.0.Valid() && b == PutSection(TakeSection(b).value.0) + TakeSection(b).value.1
  {
    U16Took(b);
    var (tag, b1) := TakeU16(b).value;
    U32Took(b1);
    var (len, b2) := TakeU32(b1).value;
    var (body, rest) := SplitAt(b2, len).value;
    Glue(b1, PutU32(len), b2, body, rest);
    Glue(b, PutU16(tag), b1, PutU32(len) + body, rest);
  }

  lemma {:induction false} BundleTook(b: Bytes)
    requires DecodeBundle(b).Some?
    ensures AllValid(DecodeBundle(b).value) && b == PutBundle(DecodeBundle(b).value)
    decreases |b|
  {
    if b != [] {
      SectionTook(b);
      var (s, rest) := TakeSection(b).value;
      BundleTook(rest);
      var ss := DecodeBundle(rest).value;
      forall t | t in [s] + ss ensures t.Valid() {
        assert t == s || t in ss;
      }
      assert ([s] + ss)[1..] == ss;
    }
  }

  lemma SectionOfConcat(a: Bytes, b: Bytes)
    requires TakeSection(a).Some?
    ensures TakeSection(a + b) == Some((TakeSection(a).value.0, TakeSection(a).value.1 + b))
  {
    hide TakeSection, PutSection;
    SectionTook(a);
    var (s, rest) := TakeSection(a).value;
    SectionPut(s, rest + b);
    assert a + b == PutSection(s) + (rest + b);
  }

  /** Parsing distributes over concatenation: after a well-formed bundle the rest is parsed as if
      it stood alone, and a malformed rest refuses the whole (there is no valid prefix). */
  lemma {:induction false} BundleConcat(a: Bytes, b: Bytes)
    requires DecodeBundle(a).Some?
    ensures DecodeBundle(a + b) ==
            if DecodeBundle(b).Some? then Some(DecodeBundle(a).value + DecodeBundle(b).value) else None
    decreases |a|
  {
    if a == [] {
      assert a + b == b;
      assert DecodeBundle(b).Some? ==> [] + DecodeBundle(b).value == DecodeBundle(b).value;
    } else {
      var (s, rest) := TakeSection(a).value;
      BundleFront(a, s, rest);
      SectionOfConcat(a, b);
      BundleFront(a + b, s, rest + b);
      hide TakeSection, DecodeBundle;
      BundleConcat(rest, b);
      if DecodeBundle(b).Some? {
        FrontOfConcat(s, DecodeBundle(rest).value, DecodeBundle(b).value);
      }
    }
  }

  lemma BundleFront(a: Bytes, s: Section, rest: Bytes)
    requires a != [] && TakeSection(a) == Some((s, rest))
    ensures DecodeBundle(a) ==
            if DecodeBundle(rest).Some? then Some([s] + DecodeBundle(rest).value) else None
  {
    hide TakeSection;
  }

  lemma FrontOfConcat(s: Section, ss: seq<Section>, ts: seq<Section>)
    ensures [s] + (ss + ts) == ([s] + ss) + ts
  {
  }

  lemma {:induction false} BundlePut(ss: seq<Section>)
    requires AllValid(ss)
    ensures DecodeBundle(PutBundle(ss)) == Some(ss)
  {
    if ss != [] {
      assert ss[0].Valid();
      BundlePut(ss[1..]);
      SectionPut(ss[0], PutBundle(ss[1..]));
      assert [ss[0]] + ss[1..] == ss;
    }
  }

  lemma {:induction false} BundleAppend(ss: seq<Section>, s: Section)
    requires AllValid(ss) && s.Valid()
    ensures AllValid(ss + [s]) && PutBundle(ss + [s]) == PutBundle(ss) + PutU16(s.tag) + PutU32(|s.body|) + s.body
  {
    if ss == [] {
      assert ss + [s] == [s] && PutBundle([]) == [];
      assert PutBundle([s]) == PutSection(s) + PutBundle([]);
    } else {
      BundleAppend(ss[1..], s);
      assert ss[0].Valid();
      assert (ss + [s])[1..] == ss[1..] + [s];
    }
  }

  /** A byte string is a bundle exactly when it is the concatenation of its sections: there is no
      canonical re-encoding, and order and duplicates are part of the bundle. */
  lemma BundleExact(b: Bytes, ss: seq<Section>)
    ensures DecodeBundle(b) == Some(ss) <==> AllValid(ss) && b == PutBundle(ss)
  {
    if DecodeBundle(b) == Some(ss) {
      BundleTook(b);
    }
    if AllValid(ss) && b == PutBundle(ss) {
      BundlePut(ss);
    }
  }

  /** Zeroed memory and erased flash are refused at any length but zero. */
  lemma UniformBuffersAreRefused(b: Bytes)
    requires b != []
    requires (forall i | 0 <= i < |b| :: b[i] == 0x00) || (forall i | 0 <= i < |b| :: b[i] == 0xFF)
    ensures DecodeBundle(b).None?
  {
    if |b| >= 2 {
      assert TakeU16(b).value.0 in {0x0000, 0xFFFF};
    }
  }

  // ---------------------------------------------------------- imperative form

  /** The fused section iterator: `rest` is what is not yet yielded. */
  class Sections {
    var rest: Bytes
    var offset: nat
    var failed: bool

    constructor (bundle: Bytes)
      ensures rest == bundle && offset == 0 && !failed
    {
      rest, offset, failed := bundle, 0, false;
    }

    /** `None` at the end and ever after an error; `Some(None)` is the one error it yields. */
    method Next() returns (item: Option<Option<Section>>)
      modifies this
      ensures item.None? <==> old(failed) || old(rest) == []
      ensures item.None? ==> failed == old(failed) && rest == old(rest) && offset == old(offset)
      ensures item.Some? ==> (failed <==> TakeSection(old(rest)).None?) && (failed <==> item.value.None?)
      ensures item.Some? && failed ==> rest == old(rest) && offset == old(offset)
      ensures item.Some? && !failed ==>
                && TakeSection(old(rest)) == Some((item.value.value, rest))
                && offset + |rest| == old(offset + |rest|)
    {
      if failed || rest == [] {
        return None;
      }
      if |rest| < SECTION_HEADER_LEN {
        failed := true;
        return Some(None);
      }
      var tag := GetU16(rest[..2]);
      if TagForbidden(tag) {
        failed := true;
        return Some(None);
      }
      assert rest[2..][..4] == rest[2..6] && rest[2..][4..] == rest[6..];
      var len: int := GetU32(rest[2..6]);
      var afterHeader := rest[SECTION_HEADER_LEN..];
      if len > |afterHeader| {
        failed := true;
        return Some(None);
      }
      var body := afterHeader[..len];
      rest, offset := afterHeader[len..], offset + SECTION_HEADER_LEN + len;
      return Some(Some(Section(tag, body)));
    }
  }

  method ParseBundle(bundle: Bytes) returns (r: Option<seq<Section>>)
    ensures r == DecodeBundle(bundle)
  {
    var it := new Sections(bundle);
    var out: seq<Section> := [];
    assert DecodeBundle(bundle).Some? ==> out + DecodeBundle(bundle).value == DecodeBundle(bundle).value;
    while true
      invariant !it.failed
      invariant DecodeBundle(bundle) ==
                if DecodeBundle(it.rest).Some? then Some(out + DecodeBundle(it.rest).value) else None
      decreases |it.rest|
    {
      var item := it.Next();
      match item {
        case None =>
          assert out + [] == out;
          return Some(out);
        case Some(None) =>
          return None;
        case Some(Some(s)) =>
          if DecodeBundle(it.rest).Some? {
            assert out + ([s] + DecodeBundle(it.rest).value) == (out + [s]) + DecodeBundle(it.rest).value;
          }
          out := out + [s];
      }
    }
  }

  method BuildBundle(sections: seq<Section>) returns (r: Option<Bytes>)
    ensures r.Some? <==> AllValid(sections)
    ensures r.Some? ==> r.value == PutBundle(sections) && DecodeBundle(r.value) == Some(sections)
  {
    var out: Bytes := [];
    assert sections[..0] == [];
    for i := 0 to |sections|
      invariant AllValid(sections[..i]) && out == PutBundle(sections[..i])
    {
      var s := sections[i];
      if TagForbidden(s.tag) || |s.body| > 0xFFFF_FFFF {
        assert s in sections && !s.Valid();
        return None;
      }
      BundleAppend(sections[..i], s);
      assert sections[..i + 1] == sections[..i] + [s];
      out := out + PutU16(s.tag);
      out := out + PutU32(|s.body|);
      out := out + s.body;
    }
    assert sections[..|sections|] == sections;
    BundlePut(sections);
    return Some(out);
  }

  /** `build_canonical`: five appends, in the order of the layout. */
  method BuildCanonical(sha: Bytes -> Digest, id: Bytes, counter: u64, selection: Bytes, pcrState: Bytes,
                        evidence: Bytes)
    returns (out: Bytes)
    requires |selection| == 5
    ensures out == PutMessage(Canonical(sha, id, counter, selection, pcrState, evidence))
  {
    out := [];
    out := out + PadId(id);
    out := out + PutU64(counter);
    out := out + selection;
    out := out + sha(pcrState);
    out := out + sha(evidence);
  }
}
