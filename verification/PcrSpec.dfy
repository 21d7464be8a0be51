/** The prover's PCR selection text, read into the algorithm and bitmap the envelope declares. */
module PcrSpec {
  import opened Bits
  import opened Bytes
  import opened Envelope
  import opened Http
  import opened Release
  import opened Rim
  import opened Sorting
  import opened StopRuns
  import opened Text
  import opened TpmWire

  const PLUS: u8 := 43
  const COMMA: u8 := 44

  // --------------------------------------------------------------------- text

  /** The bytes of a white space character at the front (the Unicode property White_Space), 0 if none. */
  function WhiteAtStart(s: Bytes): (n: nat)
    ensures n <= |s|
  {
    if |s| >= 1 && (9 <= s[0] <= 13 || s[0] == 32) then 1
    else if |s| >= 2 && s[0] == 0xC2 && s[1] in {0x85, 0xA0} then 2
    else if |s| >= 3 && IsWhite3(s[0], s[1], s[2]) then 3
    else 0
  }

  predicate IsWhite3(a: u8, b: u8, c: u8) {
    || (a == 0xE1 && b == 0x9A && c == 0x80)
    || (a == 0xE2 && b == 0x80 && (0x80 <= c <= 0x8A || c in {0xA8, 0xA9, 0xAF}))
    || (a == 0xE2 && b == 0x81 && c == 0x9F)
    || (a == 0xE3 && b == 0x80 && c == 0x80)
  }

  function WhiteAtEnd(s: Bytes): (n: nat)
    ensures n <= |s|
  {
    var l := |s|;
    if l >= 1 && (9 <= s[l - 1] <= 13 || s[l - 1] == 32) then 1
    else if l >= 2 && s[l - 2] == 0xC2 && s[l - 1] in {0x85, 0xA0} then 2
    else if l >= 3 && IsWhite3(s[l - 3], s[l - 2], s[l - 1]) then 3
    else 0
  }

  function TrimFront(s: Bytes): Bytes
    decreases |s|
  {
    if WhiteAtStart(s) == 0 then s else TrimFront(s[WhiteAtStart(s)..])
  }

  function TrimBack(s: Bytes): Bytes
    decreases |s|
  {
    if WhiteAtEnd(s) == 0 then s else TrimBack(s[..|s| - WhiteAtEnd(s)])
  }

  /** `str::trim`. */
  function Trim(s: Bytes): Bytes {
    TrimBack(TrimFront(s))
  }

  /** The characters of the Unicode property White_Space. */
  predicate IsWhite(c: nat): (b: bool)
    ensures b ==> IsScalar(c)
  {
    || 9 <= c <= 13 || c == 32 || c == 0x85 || c == 0xA0 || c == 0x1680 || 0x2000 <= c <= 0x200A
    || c in {0x2028, 0x2029, 0x202F, 0x205F, 0x3000}
  }

  predicate AllWhite(cs: seq<nat>): (b: bool)
    ensures b ==> AllScalars(cs)
  {
    forall c | c in cs :: IsWhite(c)
  }

  ghost predicate StartsWhite(s: Bytes) {
    exists c: nat :: IsWhite(c) && EncodeChar(c) <= s
  }

  ghost predicate EndsWhite(s: Bytes) {
    exists c: nat, front: Bytes :: IsWhite(c) && s == front + EncodeChar(c)
  }

  /** The white space characters, by their bytes. */
  lemma WhiteChar(s: Bytes) returns (c: nat)
    requires 1 <= |s| <= 3
    requires || (|s| == 1 && (9 <= s[0] <= 13 || s[0] == 32))
             || (|s| == 2 && s[0] == 0xC2 && s[1] in {0x85, 0xA0})
             || (|s| == 3 && IsWhite3(s[0], s[1], s[2]))
    ensures IsWhite(c) && EncodeChar(c) == s
  {
    c := if |s| == 1 then s[0] else if |s| == 2 then s[1]
         else (s[0] as int - 0xE0) * 0x1000 + (s[1] as int - 0x80) * 0x40 + (s[2] as int - 0x80);
  }

  lemma WhiteBytes(c: nat)
    requires IsWhite(c)
    ensures var s := EncodeChar(c);
            || (|s| == 1 && (9 <= s[0] <= 13 || s[0] == 32))
            || (|s| == 2 && s[0] == 0xC2 && s[1] in {0x85, 0xA0})
            || (|s| == 3 && IsWhite3(s[0], s[1], s[2]))
  {
  }

  lemma WhiteAtStartIff(s: Bytes)
    ensures WhiteAtStart(s) > 0 <==> StartsWhite(s)
    ensures WhiteAtStart(s) > 0 ==> exists c: nat :: IsWhite(c) && EncodeChar(c) == s[..WhiteAtStart(s)]
  {
    if WhiteAtStart(s) > 0 {
      var c := WhiteChar(s[..WhiteAtStart(s)]);
      assert EncodeChar(c) <= s;
    }
    if c: nat :| IsWhite(c) && EncodeChar(c) <= s {
      WhiteBytes(c);
      assert forall i | 0 <= i < |EncodeChar(c)| :: s[i] == EncodeChar(c)[i];
    }
  }

  lemma WhiteAtEndIff(s: Bytes)
    ensures WhiteAtEnd(s) > 0 <==> EndsWhite(s)
    ensures WhiteAtEnd(s) > 0 ==> exists c: nat :: IsWhite(c) && EncodeChar(c) == s[|s| - WhiteAtEnd(s)..]
  {
    if WhiteAtEnd(s) > 0 {
      var c := WhiteChar(s[|s| - WhiteAtEnd(s)..]);
      hide EncodeChar, IsWhite, WhiteAtEnd;
      assert s == s[..|s| - WhiteAtEnd(s)] + EncodeChar(c);
    }
    if c: nat, front: Bytes :| IsWhite(c) && s == front + EncodeChar(c) {
      WhiteBytes(c);
      hide EncodeChar, IsWhite;
      WhiteBehind(front, EncodeChar(c));
    }
  }

  lemma WhiteBehind(front: Bytes, w: Bytes)
    requires || (|w| == 1 && (9 <= w[0] <= 13 || w[0] == 32))
             || (|w| == 2 && w[0] == 0xC2 && w[1] in {0x85, 0xA0})
             || (|w| == 3 && IsWhite3(w[0], w[1], w[2]))
    ensures WhiteAtEnd(front + w) > 0
  {
    var s := front + w;
    assert s[|s| - 1] == w[|w| - 1];
    assert |w| >= 2 ==> s[|s| - 2] == w[|w| - 2];
    assert |w| >= 3 ==> s[|s| - 3] == w[|w| - 3];
  }

  /** One character in front. */
  lemma OneMore(c: nat, cs: seq<nat>)
    requires IsWhite(c) && AllWhite(cs)
    ensures AllWhite([c] + cs) && Encode([c] + cs) == EncodeChar(c) + Encode(cs)
  {
    hide IsWhite;
    EncodeFront(c, cs);
  }

  lemma {:induction false} OneLess(cs: seq<nat>, c: nat)
    requires AllWhite(cs) && IsWhite(c)
    ensures AllWhite(cs + [c]) && Encode(cs + [c]) == Encode(cs) + EncodeChar(c)
  {
    hide IsWhite, EncodeChar;
    if cs == [] {
      OneMore(c, []);
      assert cs + [c] == [c] + [];
    } else {
      OneLess(cs[1..], c);
      OneMore(cs[0], cs[1..]);
      OneMore(cs[0], cs[1..] + [c]);
      assert cs == [cs[0]] + cs[1..] && cs + [c] == [cs[0]] + (cs[1..] + [c]);
    }
  }

  lemma {:induction false} TrimFrontSplits(s: Bytes) returns (cs: seq<nat>)
    ensures AllWhite(cs) && s == Encode(cs) + TrimFront(s) && WhiteAtStart(TrimFront(s)) == 0
    decreases |s|
  {
    hide WhiteAtStart, IsWhite, EncodeChar, Encode, AllWhite;
    cs := [];
    NoCharacters();
    if WhiteAtStart(s) > 0 {
      WhiteAtStartIff(s);
      var n := WhiteAtStart(s);
      var c: nat :| IsWhite(c) && EncodeChar(c) == s[..n];
      var after := TrimFrontSplits(s[n..]);
      OneMore(c, after);
      cs := [c] + after;
      assert s == s[..n] + s[n..];
      Regroup(s[..n], Encode(after), TrimFront(s));
    }
  }

  lemma NoCharacters()
    ensures AllWhite([]) && Encode([]) == []
  {
  }

  lemma {:induction false} TrimBackSplits(s: Bytes) returns (cs: seq<nat>)
    ensures AllWhite(cs) && s == TrimBack(s) + Encode(cs) && WhiteAtEnd(TrimBack(s)) == 0
    decreases |s|
  {
    hide WhiteAtEnd, IsWhite, EncodeChar, Encode, AllWhite;
    cs := [];
    NoCharacters();
    if WhiteAtEnd(s) > 0 {
      WhiteAtEndIff(s);
      var n := |s| - WhiteAtEnd(s);
      var c: nat :| IsWhite(c) && EncodeChar(c) == s[n..];
      var before := TrimBackSplits(s[..n]);
      OneLess(before, c);
      cs := before + [c];
      assert s == s[..n] + s[n..];
      Regroup(TrimBack(s[..n]), Encode(before), s[n..]);
    }
  }

  lemma Regroup(a: Bytes, b: Bytes, c: Bytes)
    ensures (a + b) + c == a + (b + c)
  {
  }

  /** Trimming takes white space characters off both ends, and all of them. */
  lemma TrimExact(s: Bytes) returns (front: seq<nat>, back: seq<nat>)
    ensures AllWhite(front) && AllWhite(back) && s == Encode(front) + Trim(s) + Encode(back)
    ensures !StartsWhite(Trim(s)) && !EndsWhite(Trim(s))
  {
    hide WhiteAtStart, WhiteAtEnd, IsWhite, EncodeChar, Encode, StartsWhite, EndsWhite, TrimFront, TrimBack;
    front := TrimFrontSplits(s);
    back := TrimBackSplits(TrimFront(s));
    WhiteAtEndIff(Trim(s));
    WhiteAtStartIff(TrimFront(s));
    StillNoWhite(Trim(s), Encode(back));
  }

  lemma StillNoWhite(a: Bytes, b: Bytes)
    ensures StartsWhite(a) ==> StartsWhite(a + b)
  {
    hide IsWhite, EncodeChar;
    if c: nat :| IsWhite(c) && EncodeChar(c) <= a {
      assert EncodeChar(c) <= a + b;
    }
  }

  function AlgOf(name: Bytes): Option<u16> {
    if name == Ascii("sha1") then Some(0x0004)
    else if name == Ascii("sha256") then Some(ALG_SHA256)
    else if name == Ascii("sha384") then Some(0x000C)
    else if name == Ascii("sha512") then Some(0x000D)
    else None
  }

  /** The banks known: sha1, sha256, sha384 and sha512, with their TCG algorithm ids. */
  lemma AlgOfIff(name: Bytes, id: u16)
    ensures AlgOf(name) == Some(id) <==>
            || (name == [115, 104, 97, 49] && id == 4)
            || (name == [115, 104, 97, 50, 53, 54] && id == 11)
            || (name == [115, 104, 97, 51, 56, 52] && id == 12)
            || (name == [115, 104, 97, 53, 49, 50] && id == 13)
  {
    assert Ascii("sha1") == [115, 104, 97, 49];
    assert Ascii("sha256") == [115, 104, 97, 50, 53, 54];
    assert Ascii("sha384") == [115, 104, 97, 51, 56, 52];
    assert Ascii("sha512") == [115, 104, 97, 53, 49, 50];
  }

  /** One list item: digits, white space around them, below 256. */
  function IndexOf(token: Bytes): Option<u8> {
    var t := Trim(token);
    if t == [] then None else
      var n :- ParseU64(t);
      if n > 255 then None else Some(n)
  }

  function IndicesOf(tokens: seq<Bytes>): Option<seq<u8>> {
    if tokens == [] then Some([]) else
      var init :- IndicesOf(tokens[..|tokens| - 1]);
      var n :- IndexOf(tokens[|tokens| - 1]);
      Some(init + [n])
  }

  /** What a specification means: one bank of a known algorithm, and PCRs below 24 in ascending order. */
  ghost function Meaning(spec: Bytes): Option<(u16, Bytes)> {
    if PLUS in spec then None else
      var (alg, list) :- SplitOnce(spec, COLON);
      var id :- AlgOf(Trim(alg));
      var indices :- IndicesOf(SplitOn(list, COMMA));
      if Ascending(indices, Below) && InRange(indices) then Some((id, MaskOf(indices))) else None
  }

  /** A list ascends when each element is above the one before it. */
  lemma AscendsStepwise(s: seq<u8>, k: nat)
    requires k < |s|
    ensures Ascending(s[..k + 1], Below) <==> Ascending(s[..k], Below) && (k == 0 || s[k - 1] < s[k])
    ensures Ascending(s, Below) ==> Ascending(s[..k + 1], Below)
  {
    var t := s[..k + 1];
    assert forall i | 0 <= i < k :: s[..k][i] == t[i];
    if Ascending(t, Below) && k > 0 {
      assert Below(t[k - 1], t[k]);
    }
    if Ascending(s[..k], Below) && (k == 0 || s[k - 1] < s[k]) {
      forall i, j | 0 <= i < j < |t|
        ensures Below(t[i], t[j])
      {
        assert j < k ==> Below(s[..k][i], s[..k][j]);
        assert i < k - 1 ==> Below(s[..k][i], s[..k][k - 1]);
      }
    }
  }

  lemma {:induction false} IndicesPrefix(tokens: seq<Bytes>, k: nat)
    requires k <= |tokens| && IndicesOf(tokens).Some?
    ensures IndicesOf(tokens[..k]).Some? && |IndicesOf(tokens).value| == |tokens|
    ensures IndicesOf(tokens[..k]).value == IndicesOf(tokens).value[..k]
  {
    if tokens != [] {
      var init := tokens[..|tokens| - 1];
      if k < |tokens| {
        assert tokens[..k] == init[..k];
        IndicesPrefix(init, k);
      } else {
        IndicesPrefix(init, |init|);
        assert tokens[..k] == tokens && init[..|init|] == init;
      }
    }
  }

  /** `parse_pcr_spec`: the list is read item by item. */
  method ParsePcrSpec(spec: Bytes) returns (r: Option<(u16, Bytes)>)
    ensures r == Meaning(spec)
  {
    hide SplitOnce, SplitOn, AlgOf, IndexOf, Trim;
    if PLUS in spec {
      return None;
    }
    var parts := SplitOnce(spec, COLON);
    if parts.None? {
      return None;
    }
    var id := AlgOf(Trim(parts.value.0));
    if id.None? {
      return None;
    }
    var tokens := SplitOn(parts.value.1, COMMA);
    var bitmap := ReadList(tokens);
    if bitmap.None? {
      return None;
    }
    return Some((id.value, bitmap.value));
  }

  /** If the whole list is good, so is its item `k`. */
  lemma ItemFits(tokens: seq<Bytes>, k: nat, indices: seq<u8>)
    requires k < |tokens| && IndicesOf(tokens[..k]) == Some(indices) && |indices| == k
    ensures IndicesOf(tokens).Some? ==> IndexOf(tokens[k]).Some?
    ensures IndicesOf(tokens).Some? && Ascending(IndicesOf(tokens).value, Below) && InRange(IndicesOf(tokens).value) ==>
              IndexOf(tokens[k]).value < PCRS && (k > 0 ==> indices[k - 1] < IndexOf(tokens[k]).value)
  {
    hide IndexOf, Ascending;
    if IndicesOf(tokens).Some? {
      var all := IndicesOf(tokens).value;
      assert tokens[..k + 1][..k] == tokens[..k];
      IndicesPrefix(tokens, k + 1);
      IndicesPrefix(tokens, k);
      AscendsStepwise(all, k);
      assert all[..k + 1] == indices + [IndexOf(tokens[k]).value];
      assert all[k] == all[..k + 1][k] && (k > 0 ==> all[k - 1] == all[..k + 1][k - 1]);
    }
  }

  /** One item more. */
  lemma ItemAdds(tokens: seq<Bytes>, k: nat, indices: seq<u8>)
    requires k < |tokens| && IndicesOf(tokens[..k]) == Some(indices) && |indices| == k
    requires InRange(indices) && Ascending(indices, Below)
    requires IndexOf(tokens[k]).Some? && IndexOf(tokens[k]).value < PCRS
    requires k > 0 ==> indices[k - 1] < IndexOf(tokens[k]).value
    ensures var n := IndexOf(tokens[k]).value;
            && IndicesOf(tokens[..k + 1]) == Some(indices + [n])
            && InRange(indices + [n]) && Ascending(indices + [n], Below)
            && MaskOf(indices + [n]) == MaskOf(indices)[n / 8 := SetBit(MaskOf(indices)[n / 8], n % 8)]
  {
    hide IndexOf, Ascending, SetBit;
    var more := indices + [IndexOf(tokens[k]).value];
    assert tokens[..k + 1][..k] == tokens[..k];
    assert more[..k] == indices && more[..k + 1] == more;
    AscendsStepwise(more, k);
  }

  /** The loop over the items. */
  method ReadList(tokens: seq<Bytes>) returns (r: Option<Bytes>)
    requires tokens != []
    ensures r.Some? <==>
              && IndicesOf(tokens).Some?
              && Ascending(IndicesOf(tokens).value, Below) && InRange(IndicesOf(tokens).value)
    ensures r.Some? ==> r.value == MaskOf(IndicesOf(tokens).value)
  {
    var bitmap: Bytes := [0, 0, 0];
    var last: Option<u8> := None;
    ghost var indices: seq<u8> := [];
    assert Ascending(indices, Below) && IndicesOf(tokens[..0]) == Some(indices);
    hide Ascending, IndexOf, IndicesOf, SetBit, MaskOf, InRange;
    assert InRange([]) && MaskOf([]) == [0, 0, 0] by {
      EmptyMask();
    }
    for k := 0 to |tokens|
      invariant IndicesOf(tokens[..k]) == Some(indices) && |indices| == k
      invariant InRange(indices) && Ascending(indices, Below) && bitmap == MaskOf(indices)
      invariant last == if k == 0 then None else Some(indices[k - 1])
    {
      ItemFits(tokens, k, indices);
      var n := IndexOf(tokens[k]);
      if n.None? || n.value > 23 || (last.Some? && n.value <= last.value) {
        return None;
      }
      ItemAdds(tokens, k, indices);
      bitmap := bitmap[n.value / 8 := SetBit(bitmap[n.value / 8], n.value % 8)];
      last := n;
      indices := indices + [n.value];
    }
    assert tokens[..|tokens|] == tokens;
    return Some(bitmap);
  }

  lemma EmptyMask()
    ensures InRange([]) && MaskOf([]) == [0, 0, 0]
  {
  }

  // ------------------------------------------------------------------ printing

  function PrintList(indices: seq<u8>): Bytes
    requires indices != []
  {
    if |indices| == 1 then Decimal(indices[0]) else Decimal(indices[0]) + [COMMA] + PrintList(indices[1..])
  }

  function PrintSpec(alg: Bytes, indices: seq<u8>): Bytes
    requires indices != []
  {
    alg + [COLON] + PrintList(indices)
  }

  lemma DigitsAreTrimmed(s: Bytes)
    requires s != [] && AllDigits(s)
    ensures Trim(s) == s
  {
    assert IsDigit(s[0]) && IsDigit(s[|s| - 1]);
  }

  lemma IndexOfDecimal(n: u8)
    ensures IndexOf(Decimal(n)) == Some(n)
  {
    DigitsAreTrimmed(Decimal(n));
    ParseDecimal(n);
  }

  lemma {:induction false} IndicesOfDecimals(indices: seq<u8>, tokens: seq<Bytes>)
    requires |tokens| == |indices| && forall k | 0 <= k < |indices| :: tokens[k] == Decimal(indices[k])
    ensures IndicesOf(tokens) == Some(indices)
  {
    if indices != [] {
      var l := |indices| - 1;
      IndicesOfDecimals(indices[..l], tokens[..l]);
      IndexOfDecimal(indices[l]);
      assert indices == indices[..l] + [indices[l]];
    }
  }

  lemma DigitsOnly(s: Bytes, c: u8)
    requires AllDigits(s) && !IsDigit(c)
    ensures c !in s
  {
  }

  lemma {:induction false} ListSplits(indices: seq<u8>)
    requires indices != []
    ensures |SplitOn(PrintList(indices), COMMA)| == |indices|
    ensures forall k | 0 <= k < |indices| :: SplitOn(PrintList(indices), COMMA)[k] == Decimal(indices[k])
    ensures PLUS !in PrintList(indices)
  {
    var first := Decimal(indices[0]);
    DigitsOnly(first, COMMA);
    DigitsOnly(first, PLUS);
    if |indices| == 1 {
      NoSeparator(first, COMMA);
    } else {
      ListSplits(indices[1..]);
      FirstPiece(first, PrintList(indices[1..]), COMMA);
    }
  }

  predicate IsWordByte(c: u8) {
    97 <= c <= 122 || 48 <= c <= 57
  }

  lemma WordIsTrimmed(s: Bytes)
    requires s != [] && forall i | 0 <= i < |s| :: IsWordByte(s[i])
    ensures Trim(s) == s && COLON !in s && PLUS !in s
  {
    assert IsWordByte(s[0]) && IsWordByte(s[|s| - 1]);
  }

  lemma AlgNames(alg: Bytes)
    requires AlgOf(alg).Some?
    ensures Trim(alg) == alg && COLON !in alg && PLUS !in alg
  {
    hide Trim;
    assert Ascii("sha1") == [115, 104, 97, 49];
    assert Ascii("sha256") == [115, 104, 97, 50, 53, 54];
    assert Ascii("sha384") == [115, 104, 97, 51, 56, 52];
    assert Ascii("sha512") == [115, 104, 97, 53, 49, 50];
    WordIsTrimmed(alg);
  }

  /** Every selection of PCRs below 24 in ascending order has a text, and it is read back. */
  lemma PrintedSpecIsRead(alg: Bytes, indices: seq<u8>)
    requires AlgOf(alg).Some? && indices != [] && Ascending(indices, Below) && InRange(indices)
    ensures Meaning(PrintSpec(alg, indices)) == Some((AlgOf(alg).value, MaskOf(indices)))
  {
    hide Trim, AlgOf, IndexOf, Ascending;
    var spec := PrintSpec(alg, indices);
    AlgNames(alg);
    ListSplits(indices);
    SplitOnceExact(spec, alg, PrintList(indices), COLON);
    IndicesOfDecimals(indices, SplitOn(PrintList(indices), COMMA));
  }

  lemma OneIndex(token: Bytes)
    requires IndexOf(token).Some?
    ensures IndicesOf([token]) == Some([IndexOf(token).value])
  {
    assert [token][..0] == [];
    assert [] + [IndexOf(token).value] == [IndexOf(token).value];
  }

  /** Order is checked, spelling is not: a leading zero reads as the same selection. */
  lemma OneSetTwoSpellings(alg: Bytes)
    requires AlgOf(alg).Some?
    ensures Meaning(alg + [COLON, 48]) == Meaning(alg + [COLON, 48, 48]) == Some((AlgOf(alg).value, MaskOf([0])))
  {
    hide AlgOf, Trim;
    AlgNames(alg);
    SplitOnceExact(alg + [COLON, 48], alg, [48], COLON);
    SplitOnceExact(alg + [COLON, 48, 48], alg, [48, 48], COLON);
    assert alg + [COLON] + [48] == alg + [COLON, 48] && alg + [COLON] + [48, 48] == alg + [COLON, 48, 48];
    NoSeparator([48], COMMA);
    NoSeparator([48, 48], COMMA);
    DigitsAreTrimmed([48]);
    DigitsAreTrimmed([48, 48]);
    assert DigitsValue([48]) == 0 && DigitsValue([48, 48]) == 0;
    assert IndexOf([48]) == Some(0) && IndexOf([48, 48]) == Some(0);
    OneIndex([48]);
    OneIndex([48, 48]);
  }

  /** No white space around it, and no zero in front. */
  predicate PlainItem(t: Bytes) {
    Trim(t) == t && (|t| > 1 ==> t[0] != 48)
  }

  /** No white space around the algorithm, and plain items. */
  ghost predicate Plain(spec: Bytes) {
    var parts := SplitOnce(spec, COLON);
    && parts.Some? && Trim(parts.value.0) == parts.value.0
    && forall t | t in SplitOn(parts.value.1, COMMA) :: PlainItem(t)
  }

  lemma DecimalStep(v: nat, d: nat)
    requires v > 0 && d < 10
    ensures Decimal(10 * v + d) == Decimal(v) + [48 + d]
  {
    assert (10 * v + d) / 10 == v && (10 * v + d) % 10 == d;
  }

  lemma OneDigit(c: u8)
    requires IsDigit(c)
    ensures AllDigits([c]) && DigitsValue([c]) == c as int - 48 && Decimal(DigitsValue([c])) == [c]
  {
    assert [c][..0] == [];
  }

  lemma {:induction false} DecimalOfDigits(s: Bytes)
    requires s != [] && AllDigits(s) && (|s| > 1 ==> s[0] != 48)
    ensures Decimal(DigitsValue(s)) == s && (s[0] != 48 ==> DigitsValue(s) > 0)
  {
    var l := |s| - 1;
    assert IsDigit(s[0]) && IsDigit(s[l]);
    if l == 0 {
      OneDigit(s[0]);
      assert s == [s[0]];
    } else {
      var init := s[..l];
      assert AllDigits(init) && init[0] == s[0] && s == init + [s[l]];
      DecimalOfDigits(init);
      assert DigitsValue(s) == 10 * DigitsValue(init) + (s[l] as int - 48);
      hide DigitsValue, Decimal;
      DecimalStep(DigitsValue(init), s[l] as int - 48);
    }
  }

  lemma {:induction false} DecimalHasNoZeroInFront(v: nat)
    ensures (v > 0 ==> Decimal(v)[0] != 48) && (v == 0 ==> |Decimal(v)| == 1)
  {
    if v >= 10 {
      DecimalHasNoZeroInFront(v / 10);
    }
  }

  lemma PlainItemIsDecimal(t: Bytes)
    requires PlainItem(t) && PLUS !in t && IndexOf(t).Some?
    ensures t == Decimal(IndexOf(t).value)
  {
    DecimalOfDigits(t);
  }

  lemma {:induction false} PlainItemsAreDecimals(tokens: seq<Bytes>)
    requires IndicesOf(tokens).Some? && forall t | t in tokens :: PlainItem(t) && PLUS !in t
    ensures |IndicesOf(tokens).value| == |tokens|
    ensures forall k | 0 <= k < |tokens| :: tokens[k] == Decimal(IndicesOf(tokens).value[k])
  {
    if tokens != [] {
      PlainItemsAreDecimals(tokens[..|tokens| - 1]);
      PlainItemIsDecimal(tokens[|tokens| - 1]);
    }
  }

  lemma {:induction false} JoinedDecimals(tokens: seq<Bytes>, indices: seq<u8>)
    requires |tokens| == |indices| > 0 && forall k | 0 <= k < |tokens| :: tokens[k] == Decimal(indices[k])
    ensures Join(tokens, COMMA) == PrintList(indices)
  {
    if |tokens| > 1 {
      JoinedDecimals(tokens[1..], indices[1..]);
    }
  }

  lemma {:induction false} PieceHasNo(s: Bytes, sep: u8, c: u8)
    requires c !in s
    ensures forall t | t in SplitOn(s, sep) :: c !in t
  {
    if s != [] {
      PieceHasNo(s[1..], sep, c);
    }
  }

  lemma OneMask(a: seq<u8>, b: seq<u8>)
    requires Ascending(a, Below) && Ascending(b, Below) && InRange(a) && InRange(b) && MaskOf(a) == MaskOf(b)
    ensures a == b
  {
    hide MaskOf;
    forall n: u8
      ensures n in a <==> n in b
    {
      if n < PCRS {
        MaskExact(a, n);
        MaskExact(b, n);
      }
    }
    AscendingIsUnique(a, b, Below);
  }

  lemma PlainIsPrinted(spec: Bytes, alg: Bytes, indices: seq<u8>)
    requires AlgOf(alg).Some? && indices != [] && Ascending(indices, Below) && InRange(indices)
    requires Meaning(spec) == Some((AlgOf(alg).value, MaskOf(indices))) && Plain(spec)
    ensures spec == PrintSpec(alg, indices)
  {
    hide Trim, IndexOf, Ascending, MaskOf, SplitOn, PlainItem, Join;
    var (name, list) := SplitOnce(spec, COLON).value;
    var tokens := SplitOn(list, COMMA);
    SplitOnceExact(spec, name, list, COLON);
    PieceHasNo(list, COMMA, PLUS);
    PlainItemsAreDecimals(tokens);
    OneMask(IndicesOf(tokens).value, indices);
    JoinedDecimals(tokens, indices);
    SplitJoins(list, COMMA);
  }

  lemma PrintedIsPlain(alg: Bytes, indices: seq<u8>)
    requires AlgOf(alg).Some? && indices != []
    ensures Plain(PrintSpec(alg, indices))
  {
    hide Trim, AlgOf, SplitOn, SplitOnce, Decimal;
    AlgNames(alg);
    SplitOnceExact(PrintSpec(alg, indices), alg, PrintList(indices), COLON);
    ListSplits(indices);
    forall t | t in SplitOn(PrintList(indices), COMMA)
      ensures PlainItem(t)
    {
      var k :| 0 <= k < |indices| && t == Decimal(indices[k]);
      DigitsAreTrimmed(t);
      DecimalHasNoZeroInFront(indices[k]);
    }
  }

  /** A text of a selection is the printed one, and so the only one of its kind, exactly when it is plain. */
  lemma CanonicalIff(spec: Bytes, alg: Bytes, indices: seq<u8>)
    requires AlgOf(alg).Some? && indices != [] && Ascending(indices, Below) && InRange(indices)
    requires Meaning(spec) == Some((AlgOf(alg).value, MaskOf(indices)))
    ensures spec == PrintSpec(alg, indices) <==> Plain(spec)
  {
    PrintedIsPlain(alg, indices);
    if Plain(spec) {
      PlainIsPrinted(spec, alg, indices);
    }
  }

  /** The selection the prover declares and the one the manifest expects are the same five bytes exactly
      when they name the same PCRs. */
  lemma SpecAgreesWithManifest(sha: Bytes -> Digest, m: Manifest, refs: ReferenceSet, indices: seq<u8>)
    requires IsReferenceOf(sha, m, refs) && InRange(indices) && forall i | i in m.selection :: i < PCRS
    ensures PutSelection(ALG_SHA256, MaskOf(indices)) == refs.selection <==>
            forall n: nat | n < PCRS :: n in indices <==> n in m.selection
  {
    hide HasBit, SetBit, PutU16;
    var mask, bits := MaskOf(indices), refs.selection[2..];
    forall n: nat | n < PCRS
      ensures Selected(mask, n) <==> n in indices
    {
      MaskExact(indices, n);
    }
    assert refs.selection == refs.selection[..2] + bits;
    if mask == bits {
      assert forall n: nat | n < PCRS :: Selected(mask, n) <==> Selected(bits, n);
    } else {
      assert PutSelection(ALG_SHA256, mask)[2..] == mask;
    }
    if forall n: nat | n < PCRS :: n in indices <==> n in m.selection {
      forall b: nat | b < 3
        ensures mask[b] == bits[b]
      {
        forall k | 0 <= k < 8
          ensures HasBit(mask[b], k) <==> HasBit(bits[b], k)
        {
          assert (8 * b + k) / 8 == b && (8 * b + k) % 8 == k;
          assert Selected(mask, 8 * b + k) <==> Selected(bits, 8 * b + k);
        }
        ByBits(mask[b], bits[b]);
      }
      assert mask == bits;
    }
  }
}
