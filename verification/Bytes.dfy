/** Bytes, and little-endian 32-bit words stored in them. */
module Bytes {
  newtype Byte = b: int | 0 <= b < 256

  function Zeros(n: nat): (z: seq<Byte>)
    ensures |z| == n && forall i :: 0 <= i < n ==> z[i] == 0
  {
    seq(n, _ => 0)
  }

  /** The `i`th 32-bit word of a block. */
  function Word(s: seq<Byte>, i: nat): nat
    requires 4 * i + 4 <= |s|
  {
    s[4 * i] as nat + 0x100 * s[4 * i + 1] as nat + 0x1_0000 * s[4 * i + 2] as nat + 0x100_0000 * s[4 * i + 3] as nat
  }

  function PutWord(s: seq<Byte>, i: nat, w: nat): (r: seq<Byte>)
    requires 4 * i + 4 <= |s| && w < 0x1_0000_0000
    ensures |r| == |s|
  {
    s[4 * i := (w % 0x100) as Byte]
     [4 * i + 1 := (w / 0x100 % 0x100) as Byte]
     [4 * i + 2 := (w / 0x1_0000 % 0x100) as Byte]
     [4 * i + 3 := (w / 0x100_0000) as Byte]
  }

  lemma Digits(w: nat)
    requires w < 0x1_0000_0000
    ensures w == w % 0x100 + 0x100 * (w / 0x100 % 0x100) +
                 0x1_0000 * (w / 0x1_0000 % 0x100) + 0x100_0000 * (w / 0x100_0000)
  {
  }

  lemma WordPut(s: seq<Byte>, i: nat, w: nat, j: nat)
    requires 4 * i + 4 <= |s| && 4 * j + 4 <= |s| && w < 0x1_0000_0000
    ensures Word(PutWord(s, i, w), j) == if i == j then w else Word(s, j)
  {
    Digits(w);
    var r := PutWord(s, i, w);
    assert r[4 * i] as nat == w % 0x100 && r[4 * i + 1] as nat == w / 0x100 % 0x100;
    assert r[4 * i + 2] as nat == w / 0x1_0000 % 0x100 && r[4 * i + 3] as nat == w / 0x100_0000;
  }

  lemma WordZero(s: seq<Byte>, i: nat)
    requires 4 * i + 4 <= |s| && forall k :: 0 <= k < |s| ==> s[k] == 0
    ensures Word(s, i) == 0
  {
  }
}
