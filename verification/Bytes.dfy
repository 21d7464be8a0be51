/** Byte strings, fixed-width big-endian integers and the failure-compatible result types
    the other modules share. */
module Bytes {

  type u8 = x: int | 0 <= x < 0x100
  type u16 = x: int | 0 <= x < 0x1_0000
  type u32 = x: int | 0 <= x < 0x1_0000_0000
  type u64 = x: int | 0 <= x < 0x1_0000_0000_0000_0000

  const U64_MAX: u64 := 0xFFFF_FFFF_FFFF_FFFF

  type Bytes = seq<u8>

  /** What a SHA-256 call returns. */
  type Digest = d: Bytes | |d| == 32 witness seq(32, _ => 0)

  datatype Option<+T> = None | Some(value: T) {
    predicate IsFailure() {
      None?
    }
    function PropagateFailure<U>(): Option<U>
      requires None?
    {
      None
    }
    function Extract(): T
      requires Some?
    {
      value
    }
  }

  datatype Result<+T, +E> = Ok(value: T) | Err(error: E) {
    predicate IsFailure() {
      Err?
    }
    function PropagateFailure<U>(): Result<U, E>
      requires Err?
    {
      Err(error)
    }
    function Extract(): T
      requires Ok?
    {
      value
    }
  }

  /** The bytes of an ASCII literal. */
  function Ascii(s: string): Bytes {
    seq(|s|, i requires 0 <= i < |s| => s[i] as int % 0x100)
  }

  // ---------------------------------------------------------------- big-endian

  function PutU16(v: u16): (s: Bytes)
    ensures |s| == 2
  {
    [v / 0x100, v % 0x100]
  }

  function PutU32(v: u32): (s: Bytes)
    ensures |s| == 4
  {
    PutU16(v / 0x1_0000) + PutU16(v % 0x1_0000)
  }

  function PutU64(v: u64): (s: Bytes)
    ensures |s| == 8
  {
    PutU32(v / 0x1_0000_0000) + PutU32(v % 0x1_0000_0000)
  }

  function GetU16(s: Bytes): (v: u16)
    requires |s| == 2
  {
    0x100 * (s[0] as int) + s[1]
  }

  function GetU32(s: Bytes): (v: u32)
    requires |s| == 4
  {
    0x1_0000 * (GetU16(s[..2]) as int) + GetU16(s[2..])
  }

  function GetU64(s: Bytes): (v: u64)
    requires |s| == 8
  {
    0x1_0000_0000 * (GetU32(s[..4]) as int) + GetU32(s[4..])
  }

  lemma GetPut16(v: u16)
    ensures GetU16(PutU16(v)) == v
  {
  }

  lemma GetPut32(v: u32)
    ensures GetU32(PutU32(v)) == v
  {
    var s := PutU32(v);
    assert s[..2] == PutU16(v / 0x1_0000) && s[2..] == PutU16(v % 0x1_0000);
  }

  lemma GetPut64(v: u64)
    ensures GetU64(PutU64(v)) == v
  {
    var s := PutU64(v);
    assert s[..4] == PutU32(v / 0x1_0000_0000) && s[4..] == PutU32(v % 0x1_0000_0000);
    GetPut32(v / 0x1_0000_0000);
    GetPut32(v % 0x1_0000_0000);
  }

  lemma PutGet16(s: Bytes)
    requires |s| == 2
    ensures PutU16(GetU16(s)) == s
  {
  }

  lemma PutGet32(s: Bytes)
    requires |s| == 4
    ensures PutU32(GetU32(s)) == s
  {
    PutGet16(s[..2]);
    PutGet16(s[2..]);
    var v := GetU32(s);
    assert v / 0x1_0000 == GetU16(s[..2]) && v % 0x1_0000 == GetU16(s[2..]);
    assert s == s[..2] + s[2..];
  }

  lemma PutGet64(s: Bytes)
    requires |s| == 8
    ensures PutU64(GetU64(s)) == s
  {
    PutGet32(s[..4]);
    PutGet32(s[4..]);
    var v := GetU64(s);
    assert v / 0x1_0000_0000 == GetU32(s[..4]) && v % 0x1_0000_0000 == GetU32(s[4..]);
    assert s == s[..4] + s[4..];
  }

  /** The concatenation of two strings is split by the length of the first. */
  lemma SplitConcat(a: Bytes, b: Bytes, c: Bytes, d: Bytes)
    requires a + b == c + d && |a| == |c|
    ensures a == c && b == d
  {
    assert a == (a + b)[..|a|] && c == (c + d)[..|c|];
    assert b == (a + b)[|a|..] && d == (c + d)[|c|..];
  }
}
