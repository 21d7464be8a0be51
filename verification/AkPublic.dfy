/** The public area of an attestation key: its layout, and the rule that makes a key an AK. */
module AkPublic {
  import opened Bits
  import opened Bytes
  import opened TpmWire
  import opened StopVerify

  const ALG_ECC: u16 := 0x0023
  const ALG_ECDSA: u16 := 0x0018
  const ALG_NULL: u16 := 0x0010
  const ECC_NIST_P256: u16 := 0x0003

  /** A parsed `TPMT_PUBLIC` of an ECC key, with its bytes. */
  datatype EccPublic = EccPublic(
    tpmt: Bytes, nameAlg: u16, attributes: u32, authPolicy: Bytes, symmetric: u16,
    scheme: u16, schemeHash: u16, curve: u16, kdf: u16, x: Bytes, y: Bytes)
  {
    predicate Valid() {
      && Fits2b(authPolicy) && Fits2b(x) && Fits2b(y)
      && (scheme == ALG_NULL ==> schemeHash == 0)
    }
  }

  // ------------------------------------------------------------------ printers

  /** An algorithm and, unless it is the null algorithm, its parameters. */
  function PutAlg(alg: u16, parameters: Bytes): Bytes {
    PutU16(alg) + parameters
  }

  function PutScheme(scheme: u16, hash: u16): Bytes {
    PutU16(scheme) + if scheme != ALG_NULL then PutU16(hash) else []
  }

  function PutPoint(x: Bytes, y: Bytes): Bytes
    requires Fits2b(x) && Fits2b(y)
  {
    Tpm2b(x) + Tpm2b(y)
  }

  function PutKey(p: EccPublic, kdfParameters: Bytes): Bytes
    requires p.Valid()
  {
    PutU16(p.curve) + (PutAlg(p.kdf, kdfParameters) + PutPoint(p.x, p.y))
  }

  function PutTpmt(p: EccPublic, symParameters: Bytes, kdfParameters: Bytes): Bytes
    requires p.Valid()
  {
    PutU16(ALG_ECC) + (PutU16(p.nameAlg) + (PutU32(p.attributes) + (Tpm2b(p.authPolicy) +
    (PutAlg(p.symmetric, symParameters) + (PutScheme(p.scheme, p.schemeHash) + PutKey(p, kdfParameters))))))
  }

  /** Parameters the parser passes over: so many bytes, or none for the null algorithm. */
  predicate Parameters(alg: u16, parameters: Bytes, n: nat) {
    |parameters| == if alg == ALG_NULL then 0 else n
  }

  // ------------------------------------------------------------------- parser

  function TakeAlg(b: Bytes, n: nat): Option<(u16, Bytes)> {
    var (alg, b1) :- TakeU16(b);
    if alg == ALG_NULL then Some((alg, b1)) else
      var (_, b2) :- SplitAt(b1, n);
      Some((alg, b2))
  }

  function TakeScheme(b: Bytes): Option<(u16, u16, Bytes)> {
    var (scheme, b1) :- TakeU16(b);
    if scheme == ALG_NULL then Some((scheme, 0, b1)) else
      var (hash, b2) :- TakeU16(b1);
      Some((scheme, hash, b2))
  }

  function TakeKey(b: Bytes): Option<(u16, u16, Bytes, Bytes)> {
    var (curve, b1) :- TakeU16(b);
    var (kdf, b2) :- TakeAlg(b1, 2);
    var (x, b3) :- TakeTpm2b(b2);
    var (y, b4) :- TakeTpm2b(b3);
    if b4 != [] then None else Some((curve, kdf, x, y))
  }

  function DecodeTpmt(tpmt: Bytes): Option<EccPublic> {
    var (ty, b1) :- TakeU16(tpmt);
    if ty != ALG_ECC then None else
      var (nameAlg, b2) :- TakeU16(b1);
      var (attributes, b3) :- TakeU32(b2);
      var (authPolicy, b4) :- TakeTpm2b(b3);
      var (symmetric, b5) :- TakeAlg(b4, 4);
      var (scheme, schemeHash, b6) :- TakeScheme(b5);
      var (curve, kdf, x, y) :- TakeKey(b6);
      Some(EccPublic(tpmt, nameAlg, attributes, authPolicy, symmetric, scheme, schemeHash, curve, kdf, x, y))
  }

  /** `TPM2B_PUBLIC`: a size, then exactly that structure. */
  function DecodePublic(bytes: Bytes): Option<EccPublic> {
    var (tpmt, rest) :- TakeTpm2b(bytes);
    if rest != [] then None else DecodeTpmt(tpmt)
  }

  // ------------------------------------------------------------------ inverse

  lemma AlgPut(alg: u16, parameters: Bytes, n: nat, rest: Bytes)
    requires Parameters(alg, parameters, n)
    ensures TakeAlg(PutAlg(alg, parameters) + rest, n) == Some((alg, rest))
  {
    assert PutAlg(alg, parameters) + rest == PutU16(alg) + (parameters + rest);
    U16Put(alg, parameters + rest);
    SplitPut(parameters, rest);
    assert parameters == [] ==> parameters + rest == rest;
  }

  lemma SchemePut(scheme: u16, hash: u16, rest: Bytes)
    requires scheme == ALG_NULL ==> hash == 0
    ensures TakeScheme(PutScheme(scheme, hash) + rest) == Some((scheme, hash, rest))
  {
    if scheme == ALG_NULL {
      assert PutScheme(scheme, hash) + rest == PutU16(scheme) + rest;
      U16Put(scheme, rest);
    } else {
      assert PutScheme(scheme, hash) + rest == PutU16(scheme) + (PutU16(hash) + rest);
      U16Put(scheme, PutU16(hash) + rest);
      U16Put(hash, rest);
    }
  }

  lemma KeyPut(p: EccPublic, kdfParameters: Bytes)
    requires p.Valid() && Parameters(p.kdf, kdfParameters, 2)
    ensures TakeKey(PutKey(p, kdfParameters)) == Some((p.curve, p.kdf, p.x, p.y))
  {
    hide PutAlg, Tpm2b, TakeAlg, TakeTpm2b, PutU16, TakeU16;
    U16Put(p.curve, PutAlg(p.kdf, kdfParameters) + PutPoint(p.x, p.y));
    AlgPut(p.kdf, kdfParameters, 2, PutPoint(p.x, p.y));
    Tpm2bPut(p.x, Tpm2b(p.y));
    Tpm2bPut(p.y, []);
    assert Tpm2b(p.y) + [] == Tpm2b(p.y);
  }

  lemma TpmtPut(p: EccPublic, symParameters: Bytes, kdfParameters: Bytes)
    requires p.Valid() && Parameters(p.symmetric, symParameters, 4) && Parameters(p.kdf, kdfParameters, 2)
    requires p.tpmt == PutTpmt(p, symParameters, kdfParameters)
    ensures DecodeTpmt(p.tpmt) == Some(p)
  {
    hide PutAlg, Tpm2b, TakeAlg, TakeTpm2b, PutU16, TakeU16, PutU32, TakeU32, PutScheme, TakeScheme, PutKey, TakeKey;
    var b6 := PutKey(p, kdfParameters);
    var b5 := PutScheme(p.scheme, p.schemeHash) + b6;
    var b4 := PutAlg(p.symmetric, symParameters) + b5;
    var b3 := Tpm2b(p.authPolicy) + b4;
    var b2 := PutU32(p.attributes) + b3;
    U16Put(ALG_ECC, PutU16(p.nameAlg) + b2);
    U16Put(p.nameAlg, b2);
    U32Put(p.attributes, b3);
    Tpm2bPut(p.authPolicy, b4);
    AlgPut(p.symmetric, symParameters, 4, b5);
    SchemePut(p.scheme, p.schemeHash, b6);
    KeyPut(p, kdfParameters);
  }

  lemma AlgTook(b: Bytes, n: nat) returns (parameters: Bytes)
    requires TakeAlg(b, n).Some?
    ensures Parameters(TakeAlg(b, n).value.0, parameters, n)
    ensures b == PutAlg(TakeAlg(b, n).value.0, parameters) + TakeAlg(b, n).value.1
  {
    U16Took(b);
    var (alg, b1) := TakeU16(b).value;
    parameters := if alg == ALG_NULL then [] else b1[..n];
    assert b1 == parameters + TakeAlg(b, n).value.1;
  }

  lemma SchemeTook(b: Bytes)
    requires TakeScheme(b).Some?
    ensures b == PutScheme(TakeScheme(b).value.0, TakeScheme(b).value.1) + TakeScheme(b).value.2
    ensures TakeScheme(b).value.0 == ALG_NULL ==> TakeScheme(b).value.1 == 0
  {
    U16Took(b);
    var b1 := TakeU16(b).value.1;
    if TakeU16(b).value.0 != ALG_NULL {
      U16Took(b1);
    }
  }

  lemma KeyTook(b: Bytes, p: EccPublic) returns (kdfParameters: Bytes)
    requires p.Valid() && TakeKey(b) == Some((p.curve, p.kdf, p.x, p.y))
    ensures Parameters(p.kdf, kdfParameters, 2) && b == PutKey(p, kdfParameters)
  {
    hide PutAlg, Tpm2b, TakeAlg, TakeTpm2b, PutU16, TakeU16;
    U16Took(b);
    var b1 := TakeU16(b).value.1;
    kdfParameters := AlgTook(b1, 2);
    var b2 := TakeAlg(b1, 2).value.1;
    Tpm2bTook(b2);
    var b3 := TakeTpm2b(b2).value.1;
    Tpm2bTook(b3);
    assert b3 == Tpm2b(p.y) + [] == Tpm2b(p.y);
  }

  lemma TpmtTook(tpmt: Bytes) returns (symParameters: Bytes, kdfParameters: Bytes)
    requires Fits2b(tpmt) && DecodeTpmt(tpmt).Some?
    ensures var p := DecodeTpmt(tpmt).value;
            && p.Valid() && p.tpmt == tpmt
            && Parameters(p.symmetric, symParameters, 4) && Parameters(p.kdf, kdfParameters, 2)
            && tpmt == PutTpmt(p, symParameters, kdfParameters)
  {
    hide PutAlg, Tpm2b, TakeAlg, TakeTpm2b, PutU16, TakeU16, PutU32, TakeU32, PutScheme, TakeScheme, PutKey;
    var p := DecodeTpmt(tpmt).value;
    U16Took(tpmt);
    var b1 := TakeU16(tpmt).value.1;
    U16Took(b1);
    var b2 := TakeU16(b1).value.1;
    U32Took(b2);
    var b3 := TakeU32(b2).value.1;
    Tpm2bTook(b3);
    var b4 := TakeTpm2b(b3).value.1;
    symParameters := AlgTook(b4, 4);
    var b5 := TakeAlg(b4, 4).value.1;
    SchemeTook(b5);
    var b6 := TakeScheme(b5).value.2;
    CoordinatesFit(b6);
    kdfParameters := KeyTook(b6, p);
  }

  lemma CoordinatesFit(b: Bytes)
    requires TakeKey(b).Some?
    ensures Fits2b(TakeKey(b).value.2) && Fits2b(TakeKey(b).value.3)
  {
    hide TakeTpm2b, TakeAlg;
    var b1 := TakeU16(b).value.1;
    var b2 := TakeAlg(b1, 2).value.1;
    Tpm2bTook(b2);
    Tpm2bTook(TakeTpm2b(b2).value.1);
  }

  /** Parser and printer are inverse, up to the parameters of a symmetric or KDF algorithm, which are
      read over; only ECC keys are accepted, and nothing may follow. */
  lemma PublicExact(bytes: Bytes, p: EccPublic)
    ensures DecodePublic(bytes) == Some(p) <==>
            && p.Valid() && Fits2b(p.tpmt) && bytes == Tpm2b(p.tpmt)
            && exists sym: Bytes, kdf: Bytes ::
                 Parameters(p.symmetric, sym, 4) && Parameters(p.kdf, kdf, 2) && p.tpmt == PutTpmt(p, sym, kdf)
  {
    hide DecodeTpmt, PutTpmt, Tpm2b, TakeTpm2b, Parameters;
    if DecodePublic(bytes) == Some(p) {
      Tpm2bTook(bytes);
      var tpmt := TakeTpm2b(bytes).value.0;
      var sym, kdf := TpmtTook(tpmt);
      assert bytes == Tpm2b(tpmt) + [] == Tpm2b(tpmt);
    }
    if p.Valid() && Fits2b(p.tpmt) && bytes == Tpm2b(p.tpmt) {
      if sym: Bytes, kdf: Bytes :|
        Parameters(p.symmetric, sym, 4) && Parameters(p.kdf, kdf, 2) && p.tpmt == PutTpmt(p, sym, kdf)
      {
        TpmtPut(p, sym, kdf);
        Tpm2bPut(p.tpmt, []);
        assert bytes + [] == bytes;
      }
    }
  }

  /** Reading an algorithm with its parameters as so many 2-byte fields. */
  method ReadAlg(c: Cursor, fields: nat) returns (r: Option<u16>)
    modifies c
    ensures r.Some? <==> TakeAlg(old(c.b), 2 * fields).Some?
    ensures r.Some? ==> Some((r.value, c.b)) == TakeAlg(old(c.b), 2 * fields)
  {
    var alg :- c.U16();
    ghost var b1 := c.b;
    if alg != ALG_NULL {
      for k := 0 to fields
        invariant 2 * k <= |b1| && c.b == b1[2 * k..]
      {
        var _ :- c.U16();
      }
    }
    return Some(alg);
  }

  method ParsePublic(bytes: Bytes) returns (r: Option<EccPublic>)
    ensures r == DecodePublic(bytes)
  {
    hide TakeAlg, TakeTpm2b, TakeU16, TakeU32;
    var outer := new Cursor(bytes);
    var tpmt :- outer.Tpm2b();
    if outer.b != [] {
      return None;
    }
    var c := new Cursor(tpmt);
    var ty :- c.U16();
    if ty != ALG_ECC {
      return None;
    }
    var nameAlg :- c.U16();
    var attributes :- c.U32();
    var authPolicy :- c.Tpm2b();
    var symmetric :- ReadAlg(c, 2);
    var scheme :- c.U16();
    var schemeHash := 0;
    if scheme != ALG_NULL {
      schemeHash :- c.U16();
    }
    var curve :- c.U16();
    var kdf :- ReadAlg(c, 1);
    var x :- c.Tpm2b();
    var y :- c.Tpm2b();
    if c.b != [] {
      return None;
    }
    return Some(EccPublic(tpmt, nameAlg, attributes, authPolicy, symmetric, scheme, schemeHash, curve, kdf, x, y));
  }

  // ------------------------------------------------------------------ the rule

  const FIXED_TPM := 1
  const FIXED_PARENT := 4
  const SENSITIVE_DATA_ORIGIN := 5
  const RESTRICTED := 16
  const DECRYPT := 17
  const SIGN := 18

  /** The five bits an AK must carry, or-ed together. */
  const AK_REQUIRED: u32 := 0x0005_0032

  datatype AkKey = AkKey(x: Bytes, y: Bytes, name: Bytes)

  /** A coordinate on 32 bytes. */
  function PadLeft(c: Bytes): (p: Bytes)
    requires |c| <= 32
    ensures |p| == 32
  {
    seq(32 - |c|, _ => 0) + c
  }

  /** `from_tpm2b_public`; `isPoint` is the library's check that the coordinates are a point of P-256. */
  function AkFromPublic(sha: Bytes -> Digest, isPoint: (Bytes, Bytes) -> bool, bytes: Bytes): Option<AkKey> {
    var p :- DecodePublic(bytes);
    if And(p.attributes, AK_REQUIRED) != AK_REQUIRED then None
    else if And(p.attributes, 0x2_0000) != 0 then None
    else if p.symmetric != ALG_NULL || p.kdf != ALG_NULL then None
    else if p.scheme != ALG_ECDSA || p.schemeHash != ALG_SHA256 then None
    else if p.curve != ECC_NIST_P256 then None
    else if |p.x| > 32 || |p.y| > 32 then None
    else if !isPoint(PadLeft(p.x), PadLeft(p.y)) then None
    else if p.nameAlg != ALG_SHA256 then None
    else Some(AkKey(PadLeft(p.x), PadLeft(p.y), PutU16(ALG_SHA256) + sha(p.tpmt)))
  }

  /** A key that never leaves its TPM, was made there, and only signs what the TPM itself made. */
  predicate IsAk(attributes: u32) {
    && Bit(attributes, FIXED_TPM) && Bit(attributes, FIXED_PARENT) && Bit(attributes, SENSITIVE_DATA_ORIGIN)
    && Bit(attributes, RESTRICTED) && Bit(attributes, SIGN) && !Bit(attributes, DECRYPT)
  }

  /** The one public area with these attributes, policy and point. */
  function AkArea(attributes: u32, authPolicy: Bytes, x: Bytes, y: Bytes): EccPublic
    requires Fits2b(authPolicy) && Fits2b(x) && Fits2b(y)
  {
    var p := EccPublic([], ALG_SHA256, attributes, authPolicy, ALG_NULL, ALG_ECDSA, ALG_SHA256, ECC_NIST_P256,
                       ALG_NULL, x, y);
    p.(tpmt := PutTpmt(p, [], []))
  }

  lemma RequiredAsOr()
    ensures AK_REQUIRED == Or(Pow2(SIGN), Or(Pow2(RESTRICTED),
                           Or(Pow2(SENSITIVE_DATA_ORIGIN), Or(Pow2(FIXED_PARENT), Pow2(FIXED_TPM)))))
    ensures Pow2(DECRYPT) == 0x2_0000
  {
    ByteRange();
    assert Pow2(5) == 2 * Pow2(4) == 32 && Pow2(1) == 2;
    assert Pow2(16) == 16 * Pow2(12) == 256 * Pow2(8) == 0x1_0000;
    assert Pow2(18) == 2 * Pow2(17) == 4 * Pow2(16);
    OrIsSum(1, 2, 4);
    OrIsSum(1, 18, 5);
    OrIsSum(1, 0x32, 16);
    OrIsSum(1, 0x1_0032, 18);
  }

  lemma RequiredBits(k: nat)
    ensures Bit(AK_REQUIRED, k) <==> k in {FIXED_TPM, FIXED_PARENT, SENSITIVE_DATA_ORIGIN, RESTRICTED, SIGN}
    ensures Bit(0x2_0000, k) <==> k == DECRYPT
  {
    hide Or;
    RequiredAsOr();
    var low := Or(Pow2(FIXED_PARENT), Pow2(FIXED_TPM));
    var mid := Or(Pow2(SENSITIVE_DATA_ORIGIN), low);
    var high := Or(Pow2(RESTRICTED), mid);
    OrBits(Pow2(FIXED_PARENT), Pow2(FIXED_TPM), k);
    OrBits(Pow2(SENSITIVE_DATA_ORIGIN), low, k);
    OrBits(Pow2(RESTRICTED), mid, k);
    OrBits(Pow2(SIGN), high, k);
    PowerHasOneBit(FIXED_TPM, k);
    PowerHasOneBit(FIXED_PARENT, k);
    PowerHasOneBit(SENSITIVE_DATA_ORIGIN, k);
    PowerHasOneBit(RESTRICTED, k);
    PowerHasOneBit(SIGN, k);
    PowerHasOneBit(DECRYPT, k);
  }

  lemma WordRange()
    ensures Pow2(32) == 0x1_0000_0000
  {
    ByteRange();
    assert Pow2(16) == 16 * Pow2(12) == 256 * Pow2(8) == 0x1_0000;
    assert Pow2(24) == 16 * Pow2(20) == 256 * Pow2(16);
    assert Pow2(32) == 16 * Pow2(28) == 256 * Pow2(24);
  }

  /** A mask is contained exactly when each of its bits is. */
  lemma Masked(a: u32, mask: u32)
    ensures And(a, mask) == mask ==> forall k: nat | k < 32 && Bit(mask, k) :: Bit(a, k)
    ensures And(a, mask) == mask <== forall k: nat | k < 32 && Bit(mask, k) :: Bit(a, k)
    ensures And(a, mask) == 0 ==> forall k: nat | k < 32 && Bit(mask, k) :: !Bit(a, k)
    ensures And(a, mask) == 0 <== forall k: nat | k < 32 && Bit(mask, k) :: !Bit(a, k)
  {
    WordRange();
    AndAtMost(a, mask);
    hide Pow2;
    forall k: nat | k < 32 && Bit(mask, k)
      ensures And(a, mask) == mask ==> Bit(a, k)
      ensures And(a, mask) == 0 ==> !Bit(a, k)
    {
      AndBits(a, mask, k);
      ZeroHasNoBit(k);
    }
    if forall k: nat | k < 32 && Bit(mask, k) :: Bit(a, k) {
      forall k: nat | k < 32
        ensures Bit(And(a, mask), k) <==> Bit(mask, k)
      {
        AndBits(a, mask, k);
      }
      NumberByBits(And(a, mask), mask, 32);
    }
    if forall k: nat | k < 32 && Bit(mask, k) :: !Bit(a, k) {
      forall k: nat | k < 32
        ensures Bit(And(a, mask), k) <==> Bit(0, k)
      {
        AndBits(a, mask, k);
        ZeroHasNoBit(k);
      }
      NumberByBits(And(a, mask), 0, 32);
    }
  }

  /** The two mask tests are the rule on the bits. */
  lemma MaskIsTheRule(attributes: u32)
    ensures And(attributes, AK_REQUIRED) == AK_REQUIRED && And(attributes, 0x2_0000) == 0 <==> IsAk(attributes)
  {
    Masked(attributes, AK_REQUIRED);
    Masked(attributes, 0x2_0000);
    forall k: nat
      ensures Bit(AK_REQUIRED, k) <==> k in {FIXED_TPM, FIXED_PARENT, SENSITIVE_DATA_ORIGIN, RESTRICTED, SIGN}
      ensures Bit(0x2_0000, k) <==> k == DECRYPT
    {
      RequiredBits(k);
    }
    assert Bit(AK_REQUIRED, FIXED_TPM) && Bit(AK_REQUIRED, FIXED_PARENT) && Bit(AK_REQUIRED, SENSITIVE_DATA_ORIGIN);
    assert Bit(AK_REQUIRED, RESTRICTED) && Bit(AK_REQUIRED, SIGN) && Bit(0x2_0000, DECRYPT);
  }

  /** A key is accepted as an AK exactly when its bytes are the canonical public area of a restricted
      signing key bound to its TPM, over P-256 with ECDSA and SHA-256; the bytes then hold nothing else,
      and the key's point and name are those of that area. */
  lemma AkExact(sha: Bytes -> Digest, isPoint: (Bytes, Bytes) -> bool, bytes: Bytes, key: AkKey)
    ensures AkFromPublic(sha, isPoint, bytes) == Some(key) <==>
            exists attributes: u32, authPolicy: Bytes, x: Bytes, y: Bytes ::
              Describes(sha, isPoint, bytes, key, attributes, authPolicy, x, y)
  {
    hide Bit, And, DecodePublic, PutTpmt, PutU16, Tpm2b, IsAk, PadLeft;
    if AkFromPublic(sha, isPoint, bytes) == Some(key) {
      var p := DecodePublic(bytes).value;
      PublicExact(bytes, p);
      MaskIsTheRule(p.attributes);
      var sym: Bytes, kdf: Bytes :|
        Parameters(p.symmetric, sym, 4) && Parameters(p.kdf, kdf, 2) && p.tpmt == PutTpmt(p, sym, kdf);
      assert sym == [] && kdf == [];
      AreaPrints(p.attributes, p.authPolicy, p.x, p.y);
      TpmtIgnoresItself(p, AkArea(p.attributes, p.authPolicy, p.x, p.y));
      assert Describes(sha, isPoint, bytes, key, p.attributes, p.authPolicy, p.x, p.y);
    }
    if attributes: u32, authPolicy: Bytes, x: Bytes, y: Bytes :|
      Describes(sha, isPoint, bytes, key, attributes, authPolicy, x, y)
    {
      var p := AkArea(attributes, authPolicy, x, y);
      MaskIsTheRule(attributes);
      AreaPrints(attributes, authPolicy, x, y);
      assert Parameters(p.symmetric, [], 4) && Parameters(p.kdf, [], 2) && p.tpmt == PutTpmt(p, [], []);
      PublicExact(bytes, p);
    }
  }

  ghost predicate Describes(sha: Bytes -> Digest, isPoint: (Bytes, Bytes) -> bool, bytes: Bytes, key: AkKey,
                            attributes: u32, authPolicy: Bytes, x: Bytes, y: Bytes)
  {
    && Fits2b(authPolicy) && |x| <= 32 && |y| <= 32
    && Fits2b(AkArea(attributes, authPolicy, x, y).tpmt)
    && bytes == Tpm2b(AkArea(attributes, authPolicy, x, y).tpmt)
    && IsAk(attributes) && isPoint(PadLeft(x), PadLeft(y))
    && key == AkKey(PadLeft(x), PadLeft(y), PutU16(ALG_SHA256) + sha(AkArea(attributes, authPolicy, x, y).tpmt))
  }

  lemma TpmtIgnoresItself(p: EccPublic, q: EccPublic)
    requires p.Valid() && q.Valid() && p.(tpmt := []) == q.(tpmt := [])
    ensures forall sym: Bytes, kdf: Bytes :: PutTpmt(p, sym, kdf) == PutTpmt(q, sym, kdf)
  {
  }

  lemma AreaPrints(attributes: u32, authPolicy: Bytes, x: Bytes, y: Bytes)
    requires Fits2b(authPolicy) && Fits2b(x) && Fits2b(y)
    ensures AkArea(attributes, authPolicy, x, y).tpmt == PutTpmt(AkArea(attributes, authPolicy, x, y), [], [])
  {
    var p := AkArea(attributes, authPolicy, x, y);
    TpmtIgnoresItself(p.(tpmt := []), p);
  }

  /** Keys of one name are one public area, or SHA-256 collides on the two. */
  lemma NameIsThePublicArea(sha: Bytes -> Digest, isPoint: (Bytes, Bytes) -> bool, a: Bytes, b: Bytes)
    requires AkFromPublic(sha, isPoint, a).Some? && AkFromPublic(sha, isPoint, b).Some?
    requires AkFromPublic(sha, isPoint, a).value.name == AkFromPublic(sha, isPoint, b).value.name
    ensures a == b || Collision(sha, DecodePublic(a).value.tpmt, DecodePublic(b).value.tpmt)
  {
    hide DecodePublic, And, PutU16;
    var p, q := DecodePublic(a).value, DecodePublic(b).value;
    PublicExact(a, p);
    PublicExact(b, q);
    SplitConcat(PutU16(ALG_SHA256), sha(p.tpmt), PutU16(ALG_SHA256), sha(q.tpmt));
  }
}
