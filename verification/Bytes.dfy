/** Bytes, machine integers and the two byte orders. */
module Bytes {

  type byte = x: int | 0 <= x < 256
  type u32 = x: int | 0 <= x < 0x1_0000_0000
  type u64 = x: int | 0 <= x < 0x1_0000_0000_0000_0000

  function Pow256(n: nat): (p: nat)
    ensures p >= 1
  {
    if n == 0 then 1 else 256 * Pow256(n - 1)
  }

  function Zeros(n: nat): (s: seq<byte>)
    ensures |s| == n && forall i :: 0 <= i < n ==> s[i] == 0
  {
    seq(n, _ => 0)
  }

  function Filled(fill: byte, n: nat): (s: seq<byte>)
    ensures |s| == n
  {
    seq(n, _ => fill)
  }

  function Min(a: nat, b: nat): nat { if a <= b then a else b }

  function LittleEndian(value: nat, width: nat): (s: seq<byte>)
    ensures |s| == width
  {
    if width == 0 then [] else [value % 256] + LittleEndian(value / 256, width - 1)
  }

  function FromLittleEndian(s: seq<byte>): nat {
    if s == [] then 0 else s[0] + 256 * FromLittleEndian(s[1..])
  }

  function BigEndian(value: nat, width: nat): (s: seq<byte>)
    ensures |s| == width
  {
    if width == 0 then [] else BigEndian(value / 256, width - 1) + [value % 256]
  }

  function FromBigEndian(s: seq<byte>): nat {
    if s == [] then 0 else FromBigEndian(s[..|s| - 1]) * 256 + s[|s| - 1]
  }

  lemma {:induction false} LittleEndianRoundTrip(value: nat, width: nat)
    requires value < Pow256(width)
    ensures FromLittleEndian(LittleEndian(value, width)) == value
  {
    if width > 0 {
      LittleEndianRoundTrip(value / 256, width - 1);
      assert LittleEndian(value, width)[1..] == LittleEndian(value / 256, width - 1);
    }
  }

  lemma {:induction false} BigEndianRoundTrip(value: nat, width: nat)
    requires value < Pow256(width)
    ensures FromBigEndian(BigEndian(value, width)) == value
  {
    if width > 0 {
      BigEndianRoundTrip(value / 256, width - 1);
      var s := BigEndian(value, width);
      assert s[..|s| - 1] == BigEndian(value / 256, width - 1);
    }
  }

  /** Reading a field and writing it back restores its bytes. */
  lemma {:induction false} LittleEndianRestores(s: seq<byte>)
    ensures FromLittleEndian(s) < Pow256(|s|)
    ensures LittleEndian(FromLittleEndian(s), |s|) == s
  {
    if s != [] {
      LittleEndianRestores(s[1..]);
      var rest := FromLittleEndian(s[1..]);
      assert FromLittleEndian(s) == s[0] + 256 * rest;
      assert (s[0] + 256 * rest) % 256 == s[0] && (s[0] + 256 * rest) / 256 == rest;
      assert s == [s[0]] + s[1..];
    }
  }

  lemma {:induction false} BigEndianRestores(s: seq<byte>)
    ensures FromBigEndian(s) < Pow256(|s|)
    ensures BigEndian(FromBigEndian(s), |s|) == s
  {
    if s != [] {
      BigEndianRestores(s[..|s| - 1]);
      assert s == s[..|s| - 1] + [s[|s| - 1]];
    }
  }

  lemma FourByteBound(s: seq<byte>)
    requires |s| == 4
    ensures FromLittleEndian(s) < 0x1_0000_0000
  {
    LittleEndianRestores(s);
    assert Pow256(4) == 0x1_0000_0000;
  }

  function Le32(s: seq<byte>): u32
    requires |s| == 4
  {
    FourByteBound(s);
    FromLittleEndian(s)
  }

  /** A file or buffer with `patch` laid over it at `offset`. */
  function Overwrite(s: seq<byte>, offset: nat, patch: seq<byte>): (r: seq<byte>)
    requires offset + |patch| <= |s|
    ensures |r| == |s|
    ensures r[offset..offset + |patch|] == patch
    ensures forall i :: 0 <= i < |s| && !(offset <= i < offset + |patch|) ==> r[i] == s[i]
  {
    s[..offset] + patch + s[offset + |patch|..]
  }

  lemma OverwriteKeeps(s: seq<byte>, offset: nat, patch: seq<byte>, from: nat, count: nat)
    requires offset + |patch| <= |s| && from + count <= |s|
    requires from + count <= offset || offset + |patch| <= from
    ensures Overwrite(s, offset, patch)[from..from + count] == s[from..from + count]
  {
  }
}
