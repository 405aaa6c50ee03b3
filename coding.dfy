/** Fixed-width little-endian encoding of 64-bit integers, and the 16-byte
    block handle built from a file's number and size. */
module Coding {
  import opened Common

  const TWO64: nat := 0x1_0000_0000_0000_0000

  /** An unsigned 64-bit value (`uint64_t`). */
  type U64 = x: nat | x < 0x1_0000_0000_0000_0000

  function Pow256(n: nat): (r: nat)
    ensures r >= 1
  {
    if n == 0 then 1 else 256 * Pow256(n - 1)
  }

  lemma Pow256Of8()
    ensures Pow256(8) == TWO64
  {
    assert Pow256(2) == 0x1_0000;
    assert Pow256(4) == 0x1_0000_0000 by { assert Pow256(4) == 0x100 * Pow256(3); }
    assert Pow256(6) == 0x1_0000_0000_0000 by { assert Pow256(6) == 0x100 * Pow256(5); }
    assert Pow256(8) == 0x100 * Pow256(7);
  }

  /** The low `n` bytes of `x`, least significant first. */
  function EncodeLE(x: nat, n: nat): (r: seq<Byte>)
    ensures |r| == n
  {
    if n == 0 then [] else [(x % 256) as Byte] + EncodeLE(x / 256, n - 1)
  }

  function DecodeLE(s: seq<Byte>): (r: nat)
    ensures r < Pow256(|s|)
  {
    if s == [] then 0 else s[0] + 256 * DecodeLE(s[1..])
  }

  lemma {:induction false} DecodeEncodeLE(x: nat, n: nat)
    requires x < Pow256(n)
    ensures DecodeLE(EncodeLE(x, n)) == x
  {
    if n > 0 {
      var s := EncodeLE(x, n);
      assert s[1..] == EncodeLE(x / 256, n - 1);
      DecodeEncodeLE(x / 256, n - 1);
    }
  }

  /** `EncodeFixed64`: eight bytes of `x`, least significant first. */
  function EncodeFixed64(x: U64): (r: seq<Byte>)
    ensures |r| == 8
  {
    EncodeLE(x, 8)
  }

  function DecodeFixed64(s: seq<Byte>): (r: U64)
    requires |s| == 8
  {
    Pow256Of8();
    DecodeLE(s)
  }

  lemma Fixed64RoundTrip(x: U64)
    ensures DecodeFixed64(EncodeFixed64(x)) == x
  {
    Pow256Of8();
    DecodeEncodeLE(x, 8);
  }

  /** The handle passed to the opener: fixed64 of the file number followed by
      fixed64 of the file size. */
  function EncodeHandle(number: U64, fileSize: U64): (r: seq<Byte>)
    ensures |r| == 16
  {
    EncodeFixed64(number) + EncodeFixed64(fileSize)
  }

  function DecodeHandle(s: seq<Byte>): (r: (U64, U64))
    requires |s| == 16
  {
    (DecodeFixed64(s[..8]), DecodeFixed64(s[8..]))
  }

  lemma HandleRoundTrip(number: U64, fileSize: U64)
    ensures DecodeHandle(EncodeHandle(number, fileSize)) == (number, fileSize)
  {
    var h := EncodeHandle(number, fileSize);
    assert h[..8] == EncodeFixed64(number);
    assert h[8..] == EncodeFixed64(fileSize);
    Fixed64RoundTrip(number);
    Fixed64RoundTrip(fileSize);
  }

  /** Two handles are equal bytes exactly when they name the same number and
      size, so comparing handle bytes compares files. */
  lemma HandleInjective(n1: U64, s1: U64, n2: U64, s2: U64)
    ensures EncodeHandle(n1, s1) == EncodeHandle(n2, s2) <==> n1 == n2 && s1 == s2
  {
    if EncodeHandle(n1, s1) == EncodeHandle(n2, s2) {
      HandleRoundTrip(n1, s1);
      HandleRoundTrip(n2, s2);
    }
  }
}
