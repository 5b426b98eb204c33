/** Unsigned bytes, their bitwise operations, and the repeating-key cipher of the mesh radio. */
module Bytes {

  type byte = b: int | 0 <= b < 256

  function Min(a: int, b: int): int {
    if a <= b then a else b
  }

  function Pow2(k: nat): nat {
    if k == 0 then 1 else 2 * Pow2(k - 1)
  }

  /** Bitwise exclusive or of the k low bits of a and b. */
  function XorBits(k: nat, a: nat, b: nat): (r: nat)
    ensures r < Pow2(k)
  {
    if k == 0 then 0 else (a % 2 + b % 2) % 2 + 2 * XorBits(k - 1, a / 2, b / 2)
  }

  function Xor(a: byte, b: byte): (r: byte) {
    assert Pow2(8) == 256;
    XorBits(8, a, b)
  }

  lemma LowBit(bit: nat, rest: nat)
    requires bit < 2
    ensures (bit + 2 * rest) % 2 == bit && (bit + 2 * rest) / 2 == rest
  {
  }

  lemma {:induction false} XorBitsTwice(k: nat, a: nat, b: nat)
    requires a < Pow2(k)
    ensures XorBits(k, XorBits(k, a, b), b) == a
  {
    if k != 0 {
      var bit, rest := (a % 2 + b % 2) % 2, XorBits(k - 1, a / 2, b / 2);
      var x := bit + 2 * rest;
      LowBit(bit, rest);
      XorBitsTwice(k - 1, a / 2, b / 2);
      assert XorBits(k, a, b) == x && x % 2 == bit && x / 2 == rest;
      assert XorBits(k, x, b) == (bit + b % 2) % 2 + 2 * (a / 2);
    }
  }

  /** Bit j of a number; bit 0 is the lowest. */
  predicate Bit(a: nat, j: nat) {
    if j == 0 then a % 2 == 1 else Bit(a / 2, j - 1)
  }

  /** It is exclusive or. */
  lemma {:induction false} XorBitsAt(k: nat, a: nat, b: nat, j: nat)
    requires j < k
    ensures Bit(XorBits(k, a, b), j) <==> Bit(a, j) != Bit(b, j)
  {
    var bit, rest := (a % 2 + b % 2) % 2, XorBits(k - 1, a / 2, b / 2);
    LowBit(bit, rest);
    assert XorBits(k, a, b) == bit + 2 * rest;
    if j > 0 {
      XorBitsAt(k - 1, a / 2, b / 2, j - 1);
    }
  }

  lemma XorTwice(a: byte, b: byte)
    ensures Xor(Xor(a, b), b) == a
  {
    assert Pow2(8) == 256;
    XorBitsTwice(8, a, b);
  }

  lemma XorBitAt(a: byte, b: byte, j: nat)
    requires j < 8
    ensures Bit(Xor(a, b), j) <==> Bit(a, j) != Bit(b, j)
  {
    assert Pow2(8) == 256;
    XorBitsAt(8, a, b, j);
  }

  /** The cipher: byte i is combined with byte i modulo the key length. */
  function Encrypt(key: seq<byte>, data: seq<byte>): (r: seq<byte>)
    requires key != []
    ensures |r| == |data|
  {
    seq(|data|, i requires 0 <= i < |data| => Xor(data[i], key[i % |key|]))
  }

  /** One routine serves both to encrypt and to decrypt. */
  lemma EncryptTwice(key: seq<byte>, data: seq<byte>)
    requires key != []
    ensures Encrypt(key, Encrypt(key, data)) == data
  {
    forall i | 0 <= i < |data|
      ensures Encrypt(key, Encrypt(key, data))[i] == data[i]
    {
      XorTwice(data[i], key[i % |key|]);
    }
  }

  /** What the cipher computes: a bit is turned over exactly if the same bit of the key's byte, the key being repeated
      from its first byte on, is set. */
  lemma CipherBits(key: seq<byte>, data: seq<byte>, i: nat, j: nat)
    requires key != [] && i < |data| && j < 8
    ensures Bit(Encrypt(key, data)[i], j) <==> Bit(data[i], j) != Bit(key[i % |key|], j)
  {
    XorBitAt(data[i], key[i % |key|], j);
  }

  /** The cipher loop, in place on data[offset..offset + size]. */
  method Encryption(key: seq<byte>, data: array<byte>, offset: nat, size: nat)
    requires key != [] && offset + size <= data.Length
    modifies data
    ensures data[..] ==
      old(data[..offset]) + Encrypt(key, old(data[offset..offset + size])) + old(data[offset + size..])
    ensures forall k, j: nat :: offset <= k < offset + size && j < 8 ==>
      (Bit(data[k], j) <==> Bit(old(data[k]), j) != Bit(key[(k - offset) % |key|], j))
  {
    var i := 0;
    while i < size
      invariant 0 <= i <= size
      invariant forall j :: 0 <= j < data.Length ==>
        data[j] == if offset <= j < offset + i then Xor(old(data[j]), key[(j - offset) % |key|]) else old(data[j])
    {
      data[offset + i] := Xor(data[offset + i], key[i % |key|]);
      i := i + 1;
    }
    forall k, j: nat | offset <= k < offset + size && j < 8
      ensures Bit(data[k], j) <==> Bit(old(data[k]), j) != Bit(key[(k - offset) % |key|], j)
    {
      XorBitAt(old(data[k]), key[(k - offset) % |key|], j);
    }
  }
}
