/** Unsigned machine integers and their little-endian byte encodings, shared by every
    serialized format of the library. */
module Bytes {

  type u8 = x: int | 0 <= x < 0x100
  type u16 = x: int | 0 <= x < 0x1_0000
  type u32 = x: int | 0 <= x < 0x1_0000_0000
  type u64 = x: int | 0 <= x < 0x1_0000_0000_0000_0000

  const UINT32_MAX: u32 := 0xFFFF_FFFF
  const UINT64_MAX: u64 := 0xFFFF_FFFF_FFFF_FFFF

  function Le16(v: u16): (s: seq<u8>)
    ensures |s| == 2
  {
    [v % 0x100, v / 0x100]
  }

  function Le32(v: u32): (s: seq<u8>)
    ensures |s| == 4
  {
    [v % 0x100, v / 0x100 % 0x100, v / 0x1_0000 % 0x100, v / 0x100_0000]
  }

  function Le64(v: u64): (s: seq<u8>)
    ensures |s| == 8
  {
    Le32(v % 0x1_0000_0000) + Le32(v / 0x1_0000_0000)
  }

  function Get16(s: seq<u8>, at: nat): u16
    requires at + 2 <= |s|
  {
    s[at] as int + 0x100 * (s[at + 1] as int)
  }

  function Get32(s: seq<u8>, at: nat): u32
    requires at + 4 <= |s|
  {
    s[at] as int + 0x100 * (s[at + 1] as int) + 0x1_0000 * (s[at + 2] as int) + 0x100_0000 * (s[at + 3] as int)
  }

  function Get64(s: seq<u8>, at: nat): u64
    requires at + 8 <= |s|
  {
    Get32(s, at) + 0x1_0000_0000 * Get32(s, at + 4)
  }

  /** Zero bytes, as `memset` leaves them. */
  function Zeros(n: nat): (s: seq<u8>)
    ensures |s| == n && forall i | 0 <= i < n :: s[i] == 0
  {
    seq(n, _ => 0)
  }

  /** Reading a field back from wherever its encoding was placed. */
  lemma Get16OfLe16(s: seq<u8>, at: nat, v: u16)
    requires at + 2 <= |s| && s[at..at + 2] == Le16(v)
    ensures Get16(s, at) == v
  {
    assert s[at] == s[at..at + 2][0] && s[at + 1] == s[at..at + 2][1];
  }

  lemma Get32OfLe32(s: seq<u8>, at: nat, v: u32)
    requires at + 4 <= |s| && s[at..at + 4] == Le32(v)
    ensures Get32(s, at) == v
  {
    hide Le32;
    var t := s[at..at + 4];
    DigitsAddUp(v);
    assert s[at] == t[0] && s[at + 1] == t[1] && s[at + 2] == t[2] && s[at + 3] == t[3];
  }

  lemma DigitsAddUp(v: u32)
    ensures var d := Le32(v);
      v == d[0] as int + 0x100 * (d[1] as int) + 0x1_0000 * (d[2] as int) + 0x100_0000 * (d[3] as int)
  {
    var high, higher := v / 0x100, v / 0x1_0000;
    assert v == v % 0x100 + 0x100 * high && high == high % 0x100 + 0x100 * higher;
    assert higher == higher % 0x100 + 0x100 * (v / 0x100_0000);
  }

  lemma Get64OfLe64(s: seq<u8>, at: nat, v: u64)
    requires at + 8 <= |s| && s[at..at + 8] == Le64(v)
    ensures Get64(s, at) == v
  {
    assert s[at..at + 4] == s[at..at + 8][..4] == Le32(v % 0x1_0000_0000);
    assert s[at + 4..at + 8] == s[at..at + 8][4..] == Le32(v / 0x1_0000_0000);
    Get32OfLe32(s, at, v % 0x1_0000_0000);
    Get32OfLe32(s, at + 4, v / 0x1_0000_0000);
  }

  /** A field's value determines its bytes. */
  lemma Le16OfGet16(s: seq<u8>, at: nat)
    requires at + 2 <= |s|
    ensures Le16(Get16(s, at)) == s[at..at + 2]
  {
  }

  lemma Digits(b0: u8, b1: u8, b2: u8, b3: u8, v: u32)
    requires v == b0 as int + 0x100 * (b1 as int) + 0x1_0000 * (b2 as int) + 0x100_0000 * (b3 as int)
    ensures Le32(v) == [b0, b1, b2, b3]
  {
    var high: int := b1 as int + 0x100 * (b2 as int) + 0x1_0000 * (b3 as int);
    var higher: int := b2 as int + 0x100 * (b3 as int);
    assert v == b0 as int + 0x100 * high && high == b1 as int + 0x100 * higher;
    assert v / 0x100 == high && v % 0x100 == b0;
    assert v / 0x1_0000 == higher && high % 0x100 == b1;
    assert v / 0x100_0000 == b3 && higher % 0x100 == b2;
  }

  lemma Le32OfGet32(s: seq<u8>, at: nat)
    requires at + 4 <= |s|
    ensures Le32(Get32(s, at)) == s[at..at + 4]
  {
    Digits(s[at], s[at + 1], s[at + 2], s[at + 3], Get32(s, at));
  }

  lemma HalvesOfLe64(low: u32, high: u32, v: u64)
    requires v == low as int + 0x1_0000_0000 * (high as int)
    ensures Le64(v) == Le32(low) + Le32(high)
  {
    assert v % 0x1_0000_0000 == low && v / 0x1_0000_0000 == high;
  }

  lemma Le64OfGet64(s: seq<u8>, at: nat)
    requires at + 8 <= |s|
    ensures Le64(Get64(s, at)) == s[at..at + 8]
  {
    HalvesOfLe64(Get32(s, at), Get32(s, at + 4), Get64(s, at));
    Le32OfGet32(s, at);
    Le32OfGet32(s, at + 4);
    assert s[at..at + 8] == s[at..at + 4] + s[at + 4..at + 8];
  }

  lemma Le32OfZero()
    ensures Le32(0) == Zeros(4)
  {
  }

  /** A field depends on its own bytes only. */
  lemma Get16Local(s: seq<u8>, t: seq<u8>, at: nat)
    requires at + 2 <= |s| && at + 2 <= |t| && s[at..at + 2] == t[at..at + 2]
    ensures Get16(s, at) == Get16(t, at)
  {
    Le16OfGet16(t, at);
    Get16OfLe16(s, at, Get16(t, at));
  }

  lemma Get32Local(s: seq<u8>, t: seq<u8>, at: nat)
    requires at + 4 <= |s| && at + 4 <= |t| && s[at..at + 4] == t[at..at + 4]
    ensures Get32(s, at) == Get32(t, at)
  {
    Le32OfGet32(t, at);
    Get32OfLe32(s, at, Get32(t, at));
  }

  lemma FieldsDiffer(s: seq<u8>, t: seq<u8>, at: nat)
    requires at + 4 <= |s| && at + 4 <= |t| && s[at..at + 4] != t[at..at + 4]
    ensures Get32(s, at) != Get32(t, at)
  {
    Le32OfGet32(s, at);
    Le32OfGet32(t, at);
  }

  lemma SliceOfSlice(s: seq<u8>, at: nat, n: nat, i: nat, j: nat)
    requires i <= j <= n && at + n <= |s|
    ensures s[at..at + n][i..j] == s[at + i..at + j]
  {
    var t := s[at..at + n];
    assert forall k | 0 <= k < j - i :: t[i..j][k] == t[i + k] == s[at + i..at + j][k];
  }

  lemma MultipleOfEight(n: nat, k: nat)
    requires n == 8 * k
    ensures n % 8 == 0
  {
  }

  /** The next multiple of eight. */
  function AlignUp8(n: nat): (r: nat)
    ensures r % 8 == 0 && n <= r < n + 8
  {
    (n + 7) / 8 * 8
  }

  method ReadLe16(p: array<u8>, at: nat) returns (value: u16)
    requires at + 2 <= p.Length
    ensures value == Get16(p[..], at)
  {
    value := p[at] as int + 0x100 * (p[at + 1] as int);
  }

  method ReadLe32(p: array<u8>, at: nat) returns (value: u32)
    requires at + 4 <= p.Length
    ensures value == Get32(p[..], at)
  {
    value := p[at] as int + 0x100 * (p[at + 1] as int) + 0x1_0000 * (p[at + 2] as int) + 0x100_0000 * (p[at + 3] as int);
  }

  method ReadLe64(p: array<u8>, at: nat) returns (value: u64)
    requires at + 8 <= p.Length
    ensures value == Get64(p[..], at)
  {
    var low := ReadLe32(p, at);
    var high := ReadLe32(p, at + 4);
    value := low as int + 0x1_0000_0000 * (high as int);
  }

  method WriteLe16(p: array<u8>, at: nat, value: u16)
    requires at + 2 <= p.Length
    modifies p
    ensures p[at..at + 2] == Le16(value)
    ensures forall i | 0 <= i < p.Length && !(at <= i < at + 2) :: p[i] == old(p[i])
  {
    p[at] := value % 0x100;
    p[at + 1] := value / 0x100;
  }

  method WriteLe32(p: array<u8>, at: nat, value: u32)
    requires at + 4 <= p.Length
    modifies p
    ensures p[at..at + 4] == Le32(value)
    ensures forall i | 0 <= i < p.Length && !(at <= i < at + 4) :: p[i] == old(p[i])
  {
    p[at] := value % 0x100;
    p[at + 1] := value / 0x100 % 0x100;
    p[at + 2] := value / 0x1_0000 % 0x100;
    p[at + 3] := value / 0x100_0000;
  }

  method WriteLe64(p: array<u8>, at: nat, value: u64)
    requires at + 8 <= p.Length
    modifies p
    ensures p[at..at + 8] == Le64(value)
    ensures forall i | 0 <= i < p.Length && !(at <= i < at + 8) :: p[i] == old(p[i])
  {
    WriteLe32(p, at, value % 0x1_0000_0000);
    WriteLe32(p, at + 4, value / 0x1_0000_0000);
    assert p[at..at + 8] == p[at..at + 4] + p[at + 4..at + 8];
  }

  /** memset(p + at, 0, length) */
  method FillZero(p: array<u8>, at: nat, length: nat)
    requires at + length <= p.Length
    modifies p
    ensures forall i | at <= i < at + length :: p[i] == 0
    ensures forall i | 0 <= i < p.Length && !(at <= i < at + length) :: p[i] == old(p[i])
  {
    var i := 0;
    while i < length
      invariant 0 <= i <= length
      invariant forall k | at <= k < at + i :: p[k] == 0
      invariant forall k | 0 <= k < p.Length && !(at <= k < at + length) :: p[k] == old(p[k])
    {
      p[at + i] := 0;
      i := i + 1;
    }
  }

  /** memcpy(p + at, source, |source|) */
  method CopyIn(p: array<u8>, at: nat, source: seq<u8>)
    requires at + |source| <= p.Length
    modifies p
    ensures p[at..at + |source|] == source
    ensures forall i | 0 <= i < p.Length && !(at <= i < at + |source|) :: p[i] == old(p[i])
  {
    var i := 0;
    while i < |source|
      invariant 0 <= i <= |source|
      invariant p[at..at + i] == source[..i]
      invariant forall k | 0 <= k < p.Length && !(at <= k < at + |source|) :: p[k] == old(p[k])
    {
      p[at + i] := source[i];
      i := i + 1;
    }
  }
}
