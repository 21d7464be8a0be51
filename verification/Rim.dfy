/** The reference set a release manifest describes: per selected PCR its values, some of them per boot
    slot, and from them the composites of all devices whose slots are not mixed. */
module Rim {
  import opened Bits
  import opened Bytes
  import opened Sorting
  import opened Envelope
  import opened TpmWire
  import opened StopRuns

  /** One PCR's entry of the manifest, its digests decoded. */
  datatype PcrValues = Any(digests: seq<Digest>) | BySlot(bySlot: map<Bytes, Digest>)

  /** The `pcr` section: what is selected, and the values under their PCR index. */
  datatype Manifest = Manifest(selection: seq<u64>, values: map<u8, PcrValues>)

  datatype EvidenceKind = HostQuote | GpuAttest | CpuTee

  /** The expected selection in its 5 canonical bytes, the composites, the kinds gate 3 demands. */
  datatype ReferenceSet = ReferenceSet(selection: Bytes, allowed: seq<Digest>, required: seq<EvidenceKind>)

  datatype ManifestError =
    | IndexNotInRange | NothingSelected | KeysDiffer
    | EmptyValueSet(pcr: u8) | NoSlots(pcr: u8) | SlotsDiffer(pcr: u8)

  // ------------------------------------------------------------- the manifest

  /** The entry is not empty and names the slots every lower slot-keyed entry names. */
  ghost predicate EntryFits(m: Manifest, n: u8)
    requires n in m.values
  {
    match m.values[n]
    case Any(digests) => digests != []
    case BySlot(bySlot) =>
      && bySlot != map[]
      && forall k: u8 | k < n && k in m.values && m.values[k].BySlot? :: m.values[k].bySlot.Keys == bySlot.Keys
  }

  /** What a manifest must be to be understood. */
  ghost predicate WellFormed(m: Manifest) {
    && m.selection != []
    && (forall i | i in m.selection :: i < PCRS)
    && (forall n: u8 :: n in m.values <==> n in m.selection)
    && forall n: u8 | n in m.values :: EntryFits(m, n)
  }

  /** The slots a device can boot: those the slot-keyed PCRs name, or the only, nameless one. */
  ghost predicate IsSlot(m: Manifest, slot: Option<Bytes>) {
    match slot
    case None => forall n: u8 | n in m.values :: m.values[n].Any?
    case Some(name) => exists n: u8 :: n in m.values && m.values[n].BySlot? && name in m.values[n].bySlot
  }

  /** The value is one the entry lists, for the slot where it is slot-keyed. */
  predicate Lists(p: PcrValues, slot: Option<Bytes>, d: Digest) {
    match p
    case Any(digests) => d in digests
    case BySlot(bySlot) => slot.Some? && slot.value in bySlot && bySlot[slot.value] == d
  }

  /** The 24 PCR values are those of a device booted from `slot`: every selected PCR has a listed value,
      all of them of the one slot. */
  ghost predicate BootsFrom(m: Manifest, slot: Option<Bytes>, v: seq<Digest>) {
    && |v| == PCRS
    && IsSlot(m, slot)
    && forall n: u8 | n in m.values && n < PCRS :: Lists(m.values[n], slot, v[n])
  }

  /** The selected ones of 24 PCR values, concatenated in ascending order: what a TPM hashes. */
  function Concat(v: seq<Digest>, bits: Bytes, n: nat): Bytes
    requires |v| == PCRS && |bits| == 3 && n <= PCRS
  {
    if n == 0 then [] else
      Concat(v, bits, n - 1) + (if Selected(bits, n - 1) then v[n - 1] else [])
  }

  ghost predicate Presents(sha: Bytes -> Digest, m: Manifest, bits: Bytes, d: Digest, slot: Option<Bytes>,
                           v: seq<Digest>)
    requires |bits| == 3
  {
    BootsFrom(m, slot, v) && sha(Concat(v, bits, PCRS)) == d
  }

  /** The reference set of a manifest: the sha256 selection with exactly the bits of the selected PCRs,
      and exactly the composites of devices booted from one slot, in order and each once. */
  ghost predicate IsReferenceOf(sha: Bytes -> Digest, m: Manifest, refs: ReferenceSet) {
    && |refs.selection| == 5
    && refs.selection[..2] == PutU16(ALG_SHA256)
    && (forall n: nat | n < PCRS :: Selected(refs.selection[2..], n) <==> n in m.selection)
    && Ascending<Bytes>(refs.allowed, Less)
    && (forall d: Digest :: d in refs.allowed <==>
          exists slot: Option<Bytes>, v: seq<Digest> :: Presents(sha, m, refs.selection[2..], d, slot, v))
    && refs.required == []
  }

  // ------------------------------------------------------- the selection and its mask

  predicate InRange(selection: seq<u8>) {
    forall k | 0 <= k < |selection| :: selection[k] < PCRS
  }

  predicate Below(a: u8, b: u8) {
    a < b
  }

  /** Setting one bit per selected PCR. */
  function MaskOf(selection: seq<u8>): (bits: Bytes)
    requires InRange(selection)
    ensures |bits| == 3
  {
    if selection == [] then [0, 0, 0] else
      var last := selection[|selection| - 1];
      var bits := MaskOf(selection[..|selection| - 1]);
      bits[last / 8 := SetBit(bits[last / 8], last % 8)]
  }

  /** Bit n%8 of byte n/8 is set exactly when PCR n is selected. */
  lemma {:induction false} MaskExact(selection: seq<u8>, n: nat)
    requires InRange(selection) && n < PCRS
    ensures Selected(MaskOf(selection), n) <==> n in selection
  {
    hide SetBit, HasBit;
    if selection == [] {
      NoBits(n % 8);
    } else {
      var init, last := selection[..|selection| - 1], selection[|selection| - 1];
      MaskExact(init, n);
      assert selection == init + [last];
      SetBitExact(MaskOf(init)[last / 8], last % 8, n % 8);
      assert n == 8 * (n / 8) + n % 8 && last == 8 * (last / 8) + last % 8;
    }
  }

  /** The loop both sides run: the verifier over the manifest's selection, the prover over its own. */
  method BuildMask(selection: seq<u8>) returns (bits: Bytes)
    requires InRange(selection)
    ensures bits == MaskOf(selection)
    ensures forall n: nat | n < PCRS :: Selected(bits, n) <==> n in selection
  {
    bits := [0, 0, 0];
    for k := 0 to |selection|
      invariant bits == MaskOf(selection[..k])
    {
      var i := selection[k];
      bits := bits[i / 8 := SetBit(bits[i / 8], i % 8)];
      assert selection[..k + 1][..k] == selection[..k];
    }
    assert selection[..|selection|] == selection;
    forall n: nat | n < PCRS
      ensures Selected(bits, n) <==> n in selection
    {
      MaskExact(selection, n);
    }
  }

  /** `pcr.selection`, checked, sorted and without duplicates. */
  method ReadSelection(list: seq<u64>) returns (r: Result<seq<u8>, ManifestError>)
    ensures r.Ok? ==> r.value != [] && Ascending(r.value, Below) && (forall n: u8 :: n in r.value <==> n in list)
    ensures r.Ok? ==> InRange(r.value) && forall i | i in list :: i < PCRS
    ensures r == Err(IndexNotInRange) <==> exists i :: i in list && i >= PCRS
    ensures r == Err(NothingSelected) <==> list == []
    ensures r.Err? ==> r.error in {IndexNotInRange, NothingSelected}
  {
    var pushed: seq<u8> := [];
    for k := 0 to |list|
      invariant |pushed| == k
      invariant forall j | 0 <= j < k :: pushed[j] == list[j] && list[j] < PCRS
    {
      if list[k] > 23 {
        assert list[k] in list;
        return Err(IndexNotInRange);
      }
      pushed := pushed + [list[k]];
    }
    assert forall i | i in list :: i < PCRS;
    assert pushed == list;
    var selection := SortDedup(pushed, Below);
    assert list != [] ==> pushed[0] in selection;
    if selection == [] {
      return Err(NothingSelected);
    }
    assert selection[0] in list;
    assert forall k | 0 <= k < |selection| :: selection[k] in list;
    return Ok(selection);
  }

  /** Digests in byte order, each once. */
  method SortDigests(digests: seq<Digest>) returns (sorted: seq<Digest>)
    ensures Ascending<Bytes>(sorted, Less)
    ensures forall d: Digest :: d in sorted <==> d in digests
  {
    LessIsStrictTotal();
    var ds := SortDedup<Bytes>(digests, Less);
    forall k | 0 <= k < |ds|
      ensures |ds[k]| == 32
    {
      assert ds[k] in ds && ds[k] in digests;
    }
    return ds;
  }

  // ------------------------------------------------------------ the product

  function Front(c: Bytes): Bytes
    requires |c| >= 32
  {
    c[..|c| - 32]
  }

  function Last(c: Bytes): Digest
    requires |c| >= 32
  {
    c[|c| - 32..]
  }

  /** Strings that end in a digest are split in one way. */
  lemma JoinSplit(c: Bytes, pre: Bytes, d: Digest)
    ensures c == pre + d <==> |c| >= 32 && Front(c) == pre && Last(c) == d
  {
    if |c| >= 32 {
      assert c == Front(c) + Last(c);
    }
    assert Front(pre + d) == pre && Last(pre + d) == d;
  }

  /** `c` concatenates one digest of each column, in column order. */
  predicate IsChoice(columns: seq<seq<Digest>>, c: Bytes)
    decreases |columns|
  {
    if columns == [] then c == [] else
      && |c| >= 32
      && Last(c) in columns[|columns| - 1]
      && IsChoice(columns[..|columns| - 1], Front(c))
  }

  lemma ChoiceExtends(columns: seq<seq<Digest>>, pre: Bytes, d: Digest)
    requires columns != [] && d in columns[|columns| - 1]
    ensures IsChoice(columns, pre + d) <==> IsChoice(columns[..|columns| - 1], pre)
  {
    JoinSplit(pre + d, pre, d);
  }

  /** One combination, extended by every digest of the column. */
  method ExtendOne(pre: Bytes, column: seq<Digest>) returns (row: seq<Bytes>)
    ensures forall c :: c in row <==> |c| >= 32 && Front(c) == pre && Last(c) in column
  {
    hide Front, Last;
    row := [];
    for j := 0 to |column|
      invariant forall c :: c in row <==> |c| >= 32 && Front(c) == pre && Last(c) in column[..j]
    {
      forall c: Bytes
        ensures c == pre + column[j] <==> |c| >= 32 && Front(c) == pre && Last(c) == column[j]
      {
        JoinSplit(c, pre, column[j]);
      }
      assert column[..j + 1] == column[..j] + [column[j]];
      row := row + [pre + column[j]];
    }
    assert column[..|column|] == column;
  }

  /** Every combination so far, extended by every digest of the next column. */
  method Extend(combos: seq<Bytes>, column: seq<Digest>) returns (longer: seq<Bytes>)
    ensures forall c :: c in longer <==> |c| >= 32 && Front(c) in combos && Last(c) in column
  {
    hide Front, Last;
    longer := [];
    for i := 0 to |combos|
      invariant forall c :: c in longer <==> |c| >= 32 && Front(c) in combos[..i] && Last(c) in column
    {
      var row := ExtendOne(combos[i], column);
      assert combos[..i + 1] == combos[..i] + [combos[i]];
      longer := longer + row;
    }
    assert combos[..|combos|] == combos;
  }

  /** All ways to take one value of every column, each laid end to end. */
  method Product(columns: seq<seq<Digest>>) returns (combos: seq<Bytes>)
    ensures forall c :: c in combos <==> IsChoice(columns, c)
  {
    combos := [[]];
    for k := 0 to |columns|
      invariant forall c :: c in combos <==> IsChoice(columns[..k], c)
    {
      assert columns[..k + 1][..k] == columns[..k];
      combos := Extend(combos, columns[k]);
    }
    assert columns[..|columns|] == columns;
  }

  // --------------------------------------- choices are the states of a device

  /** The values of the PCRs of a list, in list order. */
  function Picked(v: seq<Digest>, selection: seq<u8>): Bytes
    requires |v| == PCRS && InRange(selection)
  {
    if selection == [] then [] else
      Picked(v, selection[..|selection| - 1]) + v[selection[|selection| - 1]]
  }

  lemma {:induction false} PickedIsConcat(v: seq<Digest>, bits: Bytes, selection: seq<u8>, n: nat, k: nat)
    requires |v| == PCRS && |bits| == 3 && n <= PCRS && k <= |selection|
    requires Ascending(selection, Below) && InRange(selection)
    requires forall i: nat | i < PCRS :: Selected(bits, i) <==> i in selection
    requires forall j | 0 <= j < |selection| :: j < k <==> selection[j] < n
    ensures Concat(v, bits, n) == Picked(v, selection[..k])
  {
    hide Selected;
    if n > 0 {
      if k > 0 && selection[k - 1] == n - 1 {
        assert selection[k - 1] in selection;
        PickedIsConcat(v, bits, selection, n - 1, k - 1);
        assert selection[..k][..k - 1] == selection[..k - 1];
      } else {
        assert n - 1 !in selection;
        PickedIsConcat(v, bits, selection, n - 1, k);
        assert Concat(v, bits, n) == Concat(v, bits, n - 1) + [];
      }
    }
  }

  lemma {:induction false} PickedKeeps(v: seq<Digest>, w: seq<Digest>, selection: seq<u8>)
    requires |v| == PCRS == |w| && InRange(selection)
    requires forall k | 0 <= k < |selection| :: v[selection[k]] == w[selection[k]]
    ensures Picked(v, selection) == Picked(w, selection)
  {
    if selection != [] {
      PickedKeeps(v, w, selection[..|selection| - 1]);
    }
  }

  /** Choosing from the columns is having PCR values out of them. */
  lemma {:induction false} StateIsChoice(columns: seq<seq<Digest>>, selection: seq<u8>, v: seq<Digest>)
    requires |v| == PCRS && |columns| == |selection| && InRange(selection)
    requires forall j | 0 <= j < |selection| :: v[selection[j]] in columns[j]
    ensures IsChoice(columns, Picked(v, selection))
  {
    if selection != [] {
      var l := |selection| - 1;
      StateIsChoice(columns[..l], selection[..l], v);
      ChoiceExtends(columns, Picked(v, selection[..l]), v[selection[l]]);
    }
  }

  lemma {:induction false} ChoiceHasState(columns: seq<seq<Digest>>, selection: seq<u8>, c: Bytes)
    returns (v: seq<Digest>)
    requires |columns| == |selection| && Ascending(selection, Below) && InRange(selection)
    requires IsChoice(columns, c)
    ensures |v| == PCRS && c == Picked(v, selection)
    ensures forall j | 0 <= j < |selection| :: v[selection[j]] in columns[j]
  {
    if selection == [] {
      v := seq(PCRS, _ => seq(32, _ => 0));
    } else {
      var l := |selection| - 1;
      var last := Last(c);
      var u := ChoiceHasState(columns[..l], selection[..l], Front(c));
      v := u[selection[l] := last];
      assert forall j | 0 <= j < l :: selection[j] in selection && Below(selection[j], selection[l]);
      PickedKeeps(u, v, selection[..l]);
      forall j | 0 <= j < |selection|
        ensures v[selection[j]] in columns[j]
      {
        if j < l {
          assert selection[..l][j] == selection[j] && columns[..l][j] == columns[j];
        }
      }
      assert c == Front(c) + Last(c);
    }
  }

  /** The columns of one slot: for each selected PCR in order, the values the slot can have. */
  ghost predicate ColumnsOf(m: Manifest, selection: seq<u8>, slot: Option<Bytes>, columns: seq<seq<Digest>>) {
    && |columns| == |selection|
    && forall j | 0 <= j < |selection| ::
         selection[j] in m.values && forall d: Digest :: d in columns[j] <==> Lists(m.values[selection[j]], slot, d)
  }

  /** The composites of the columns are the composites of the devices booted from the slot. */
  lemma SlotExact(sha: Bytes -> Digest, m: Manifest, selection: seq<u8>, bits: Bytes, slot: Option<Bytes>,
                  columns: seq<seq<Digest>>, d: Digest)
    requires WellFormed(m) && IsSlot(m, slot) && ColumnsOf(m, selection, slot, columns) && |bits| == 3
    requires Ascending(selection, Below) && forall n: u8 :: n in selection <==> n in m.values
    requires forall n: nat | n < PCRS :: Selected(bits, n) <==> n in selection
    ensures (exists c: Bytes :: IsChoice(columns, c) && sha(c) == d) <==>
            (exists v: seq<Digest> :: Presents(sha, m, bits, d, slot, v))
  {
    hide Selected, Lists;
    if c: Bytes :| IsChoice(columns, c) && sha(c) == d {
      var v := ChoiceHasState(columns, selection, c);
      PickedIsConcat(v, bits, selection, PCRS, |selection|);
      assert selection[..|selection|] == selection;
      forall n: u8 | n in m.values && n < PCRS
        ensures Lists(m.values[n], slot, v[n])
      {
        var j :| 0 <= j < |selection| && selection[j] == n;
      }
      assert Presents(sha, m, bits, d, slot, v);
    }
    if v: seq<Digest> :| Presents(sha, m, bits, d, slot, v) {
      forall j | 0 <= j < |selection|
        ensures v[selection[j]] in columns[j]
      {
        assert selection[j] in selection;
      }
      StateIsChoice(columns, selection, v);
      PickedIsConcat(v, bits, selection, PCRS, |selection|);
      assert selection[..|selection|] == selection;
      assert IsChoice(columns, Picked(v, selection));
    }
  }

  // -------------------------------------------------------- reading the values

  /** The manifest is refused at this PCR, and no lower one is at fault. */
  ghost predicate Misfit(m: Manifest, e: ManifestError) {
    && !e.IndexNotInRange? && !e.NothingSelected? && !e.KeysDiffer?
    && e.pcr in m.values && !EntryFits(m, e.pcr)
    && (forall k: u8 | k < e.pcr && k in m.values :: EntryFits(m, k))
    && (e.EmptyValueSet? <==> m.values[e.pcr] == Any([]))
    && (e.NoSlots? <==> m.values[e.pcr] == BySlot(map[]))
  }

  /** `per` holds the entries of the PCRs, up to order and repetition of their values. */
  ghost predicate SameLists(m: Manifest, selection: seq<u8>, per: seq<PcrValues>) {
    && |per| <= |selection|
    && forall j | 0 <= j < |per| ::
         && selection[j] in m.values
         && (per[j].BySlot? ==> per[j] == m.values[selection[j]])
         && forall slot: Option<Bytes>, d: Digest :: Lists(per[j], slot, d) <==> Lists(m.values[selection[j]], slot, d)
  }

  /** The slot names the slot-keyed PCRs agree on. */
  ghost predicate AgreeOn(m: Manifest, selection: seq<u8>, slots: Option<set<Bytes>>, n: nat)
    requires n <= |selection| && forall j | 0 <= j < n :: selection[j] in m.values
  {
    && (forall j | 0 <= j < n && m.values[selection[j]].BySlot? :: slots == Some(m.values[selection[j]].bySlot.Keys))
    && (slots.Some? ==> slots.value != {} && exists j :: 0 <= j < n && m.values[selection[j]].BySlot?)
  }

  lemma FitsIff(m: Manifest, selection: seq<u8>, slots: Option<set<Bytes>>, k: nat)
    requires k < |selection| && Ascending(selection, Below) && forall n: u8 :: n in selection <==> n in m.values
    requires AgreeOn(m, selection, slots, k) && m.values[selection[k]].BySlot?
    ensures EntryFits(m, selection[k]) <==>
            var names := m.values[selection[k]].bySlot.Keys; names != {} && (slots.None? || slots.value == names)
  {
    var n, bySlot := selection[k], m.values[selection[k]].bySlot;
    assert bySlot == map[] <==> bySlot.Keys == {};
    if slots.Some? {
      var j :| 0 <= j < k && m.values[selection[j]].BySlot?;
      assert selection[j] in m.values && Below(selection[j], n);
      assert EntryFits(m, n) ==> m.values[selection[j]].bySlot.Keys == bySlot.Keys;
    }
    if slots.None? || slots.value == bySlot.Keys {
      forall i: u8 | i < n && i in m.values && m.values[i].BySlot?
        ensures m.values[i].bySlot.Keys == bySlot.Keys
      {
        var j :| 0 <= j < |selection| && selection[j] == i;
        assert j >= k && j != k ==> Below(selection[k], selection[j]);
        assert j < k;
      }
    }
  }

  /** The slots agree once one more PCR is read. */
  lemma AgreeOnNext(m: Manifest, selection: seq<u8>, slots: Option<set<Bytes>>, k: nat)
    requires k < |selection| && forall j | 0 <= j < |selection| :: selection[j] in m.values
    requires AgreeOn(m, selection, slots, k)
    ensures m.values[selection[k]].Any? ==> AgreeOn(m, selection, slots, k + 1)
    ensures m.values[selection[k]].BySlot? ==>
              var names := m.values[selection[k]].bySlot.Keys;
              names != {} && (slots.None? || slots.value == names) ==> AgreeOn(m, selection, Some(names), k + 1)
  {
  }

  /** One PCR's entry, and the slots known after it. */
  method ReadEntry(m: Manifest, selection: seq<u8>, k: nat, slots: Option<set<Bytes>>)
    returns (r: Result<(PcrValues, Option<set<Bytes>>), ManifestError>)
    requires k < |selection| && Ascending(selection, Below) && forall n: u8 :: n in selection <==> n in m.values
    requires forall j | 0 <= j < |selection| :: selection[j] in m.values
    requires AgreeOn(m, selection, slots, k)
    ensures r.Ok? <==> EntryFits(m, selection[k])
    ensures r.Ok? ==> AgreeOn(m, selection, r.value.1, k + 1)
    ensures r.Ok? && r.value.0.BySlot? ==> r.value.0 == m.values[selection[k]]
    ensures r.Ok? ==> forall slot: Option<Bytes>, d: Digest ::
              Lists(r.value.0, slot, d) <==> Lists(m.values[selection[k]], slot, d)
    ensures r.Err? ==>
              && !r.error.IndexNotInRange? && !r.error.NothingSelected? && !r.error.KeysDiffer?
              && r.error.pcr == selection[k]
              && (r.error.EmptyValueSet? <==> m.values[selection[k]] == Any([]))
              && (r.error.NoSlots? <==> m.values[selection[k]] == BySlot(map[]))
  {
    hide AgreeOn, Ascending;
    AgreeOnNext(m, selection, slots, k);
    var i := selection[k];
    match m.values[i] {
      case Any(digests) =>
        if digests == [] {
          return Err(EmptyValueSet(i));
        }
        var ds := SortDigests(digests);
        return Ok((Any(ds), slots));
      case BySlot(bySlot) =>
        FitsIff(m, selection, slots, k);
        var names := bySlot.Keys;
        assert names == {} <==> bySlot == map[];
        if names == {} {
          return Err(NoSlots(i));
        }
        if slots.Some? && slots.value != names {
          return Err(SlotsDiffer(i));
        }
        return Ok((BySlot(bySlot), Some(names)));
    }
  }

  /** The loop over the selected PCRs in ascending order: stops at the first entry at fault. */
  method ReadValues(m: Manifest, selection: seq<u8>)
    returns (r: Result<(seq<PcrValues>, Option<set<Bytes>>), ManifestError>)
    requires Ascending(selection, Below) && forall n: u8 :: n in selection <==> n in m.values
    ensures r.Ok? ==> forall n: u8 | n in m.values :: EntryFits(m, n)
    ensures r.Ok? ==> |r.value.0| == |selection| && SameLists(m, selection, r.value.0)
    ensures r.Ok? ==> AgreeOn(m, selection, r.value.1, |selection|)
    ensures r.Err? ==> Misfit(m, r.error)
  {
    hide Lists, EntryFits;
    assert forall j | 0 <= j < |selection| :: selection[j] in selection;
    var per: seq<PcrValues> := [];
    var slots: Option<set<Bytes>> := None;
    for k := 0 to |selection|
      invariant |per| == k && SameLists(m, selection, per)
      invariant AgreeOn(m, selection, slots, k)
      invariant forall j | 0 <= j < k :: EntryFits(m, selection[j])
    {
      var entry := ReadEntry(m, selection, k, slots);
      if entry.Err? {
        LowerAreEarlier(m, selection, k);
        return Err(entry.error);
      }
      per, slots := per + [entry.value.0], entry.value.1;
    }
    forall n: u8 | n in m.values
      ensures EntryFits(m, n)
    {
      var j :| 0 <= j < |selection| && selection[j] == n;
    }
    return Ok((per, slots));
  }

  lemma LowerAreEarlier(m: Manifest, selection: seq<u8>, k: nat)
    requires k < |selection| && Ascending(selection, Below) && forall n: u8 :: n in selection <==> n in m.values
    ensures forall n: u8 | n < selection[k] && n in m.values :: exists j :: 0 <= j < k && selection[j] == n
  {
    forall n: u8 | n < selection[k] && n in m.values
      ensures exists j :: 0 <= j < k && selection[j] == n
    {
      var j :| 0 <= j < |selection| && selection[j] == n;
      assert k < j ==> Below(selection[k], selection[j]);
    }
  }

  // ------------------------------------------------------- the reference set

  /** `c` is one of the composites of some slot named in `done`. */
  ghost predicate Expands(sha: Bytes -> Digest, m: Manifest, bits: Bytes, d: Digest, slots: set<Option<Bytes>>)
    requires |bits| == 3
  {
    exists slot: Option<Bytes>, v: seq<Digest> :: slot in slots && Presents(sha, m, bits, d, slot, v)
  }

  /** One slot's columns: the whole list of an `Any` entry, the one value of a slot-keyed entry. */
  method Columns(per: seq<PcrValues>, slot: Option<Bytes>) returns (columns: seq<seq<Digest>>)
    requires forall j | 0 <= j < |per| && per[j].BySlot? :: slot.Some? && slot.value in per[j].bySlot
    ensures |columns| == |per|
    ensures forall j, d: Digest | 0 <= j < |per| :: d in columns[j] <==> Lists(per[j], slot, d)
  {
    columns := [];
    for j := 0 to |per|
      invariant |columns| == j
      invariant forall k, d: Digest | 0 <= k < j :: d in columns[k] <==> Lists(per[k], slot, d)
    {
      var column := match per[j]
        case Any(digests) => digests
        case BySlot(bySlot) => [bySlot[slot.value]];
      columns := columns + [column];
    }
  }

  /** The composites of one slot. */
  method ExpandSlot(sha: Bytes -> Digest, m: Manifest, selection: seq<u8>, bits: Bytes, per: seq<PcrValues>,
                    slot: Option<Bytes>)
    returns (composites: seq<Digest>)
    requires WellFormed(m) && IsSlot(m, slot) && |bits| == 3
    requires Ascending(selection, Below) && forall n: u8 :: n in selection <==> n in m.values
    requires forall n: nat | n < PCRS :: Selected(bits, n) <==> n in selection
    requires |per| == |selection| && SameLists(m, selection, per)
    requires forall j | 0 <= j < |per| && per[j].BySlot? :: slot.Some? && slot.value in per[j].bySlot
    ensures forall d: Digest :: d in composites <==> Expands(sha, m, bits, d, {slot})
  {
    hide Selected, Lists, WellFormed, IsSlot, IsChoice, Ascending, Presents;
    var columns := Columns(per, slot);
    var combos := Product(columns);
    composites := [];
    for k := 0 to |combos|
      invariant forall d: Digest :: d in composites <==> exists c :: c in combos[..k] && sha(c) == d
    {
      assert combos[..k + 1] == combos[..k] + [combos[k]];
      assert combos[k] in combos[..k + 1];
      composites := composites + [sha(combos[k])];
    }
    assert combos[..|combos|] == combos;
    forall d: Digest
      ensures d in composites <==> Expands(sha, m, bits, d, {slot})
    {
      SlotExact(sha, m, selection, bits, slot, columns, d);
    }
  }

  function SlotNames(slots: Option<set<Bytes>>): set<Option<Bytes>> {
    match slots
    case None => {None}
    case Some(names) => set name | name in names :: Some(name)
  }

  lemma SlotNamesExact(m: Manifest, selection: seq<u8>, slots: Option<set<Bytes>>, slot: Option<Bytes>)
    requires forall n: u8 :: n in selection <==> n in m.values
    requires forall j | 0 <= j < |selection| :: selection[j] in m.values
    requires AgreeOn(m, selection, slots, |selection|)
    ensures slot in SlotNames(slots) <==> IsSlot(m, slot)
  {
    forall n: u8 | n in m.values && m.values[n].BySlot?
      ensures slots == Some(m.values[n].bySlot.Keys)
    {
      var j :| 0 <= j < |selection| && selection[j] == n;
    }
    if slots.Some? {
      var j :| 0 <= j < |selection| && m.values[selection[j]].BySlot?;
      assert selection[j] in m.values;
    }
  }

  lemma SlotsCover(m: Manifest, selection: seq<u8>, slots: Option<set<Bytes>>, per: seq<PcrValues>, slot: Option<Bytes>)
    requires |per| == |selection| && SameLists(m, selection, per)
    requires forall n: u8 :: n in selection <==> n in m.values
    requires AgreeOn(m, selection, slots, |selection|) && slot in SlotNames(slots)
    ensures forall j | 0 <= j < |per| && per[j].BySlot? :: slot.Some? && slot.value in per[j].bySlot
  {
    forall j | 0 <= j < |per| && per[j].BySlot?
      ensures slot.Some? && slot.value in per[j].bySlot
    {
      assert slots == Some(m.values[selection[j]].bySlot.Keys);
    }
  }

  /** Every slot expanded is every device expanded. */
  lemma EverySlot(sha: Bytes -> Digest, m: Manifest, bits: Bytes, selection: seq<u8>, slots: Option<set<Bytes>>,
                  d: Digest)
    requires |bits| == 3 && forall n: u8 :: n in selection <==> n in m.values
    requires forall j | 0 <= j < |selection| :: selection[j] in m.values
    requires AgreeOn(m, selection, slots, |selection|)
    ensures Expands(sha, m, bits, d, SlotNames(slots)) <==>
            exists slot: Option<Bytes>, v: seq<Digest> :: Presents(sha, m, bits, d, slot, v)
  {
    if slot: Option<Bytes>, v: seq<Digest> :| Presents(sha, m, bits, d, slot, v) {
      SlotNamesExact(m, selection, slots, slot);
    }
  }

  /** The reference set of a manifest: understood exactly when the manifest is well formed, and refused
      for the first thing at fault. */
  method ReferenceFromRim(sha: Bytes -> Digest, m: Manifest) returns (r: Result<ReferenceSet, ManifestError>)
    ensures r.Ok? <==> WellFormed(m)
    ensures r.Ok? ==> IsReferenceOf(sha, m, r.value)
    ensures r == Err(IndexNotInRange) <==> exists i :: i in m.selection && i >= PCRS
    ensures r == Err(NothingSelected) <==> m.selection == []
    ensures r.Err? && !r.error.IndexNotInRange? && !r.error.NothingSelected? && !r.error.KeysDiffer?
            ==> Misfit(m, r.error)
    ensures r == Err(KeysDiffer) <==>
            && m.selection != [] && (forall i | i in m.selection :: i < PCRS)
            && exists n: u8 :: (n in m.values) != (n in m.selection)
  {
    hide Selected, EntryFits, AgreeOn, SameLists, SlotNames, IsSlot, Presents, PutU16;
    var read := ReadSelection(m.selection);
    if read.Err? {
      return Err(read.error);
    }
    var selection := read.value;
    if m.values.Keys != (set n | n in selection) {
      return Err(KeysDiffer);
    }
    assert forall n: u8 :: n in m.values <==> n in m.values.Keys;
    var values := ReadValues(m, selection);
    if values.Err? {
      return Err(values.error);
    }
    var (per, slots) := values.value;
    var bits := BuildMask(selection);
    var names := SlotNames(slots);
    var composites: seq<Digest> := [];
    var done: set<Option<Bytes>> := {};
    while done != names
      invariant done <= names
      invariant forall d: Digest :: d in composites <==> Expands(sha, m, bits, d, done)
      decreases |names - done|
    {
      var slot :| slot in names - done;
      SlotNamesExact(m, selection, slots, slot);
      SlotsCover(m, selection, slots, per, slot);
      var some := ExpandSlot(sha, m, selection, bits, per, slot);
      composites := composites + some;
      done := done + {slot};
    }
    var allowed := SortDigests(composites);
    var refs := ReferenceSet(PutSelection(ALG_SHA256, bits), allowed, []);
    forall d: Digest
      ensures d in allowed <==> exists slot: Option<Bytes>, v: seq<Digest> :: Presents(sha, m, bits, d, slot, v)
    {
      EverySlot(sha, m, bits, selection, slots, d);
    }
    assert refs.selection[2..] == bits && refs.selection[..2] == PutU16(ALG_SHA256);
    return Ok(refs);
  }
}
