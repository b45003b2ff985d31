/** The per-chunk nonce: a 24-byte base whose last 8 bytes are XORed with the chunk index.

    internal/crypto and internal/p2p XOR byte by byte into an array; internal/app XORs one uint64. */
module ChunkNonce {
  import opened Bytes
  import opened Primitives

  /** The convention both styles implement. */
  function Nonce(base: bytes, index: nat): (n: bytes)
    requires |base| == NONCE_SIZE
    ensures |n| == NONCE_SIZE
  {
    base[..16] + XorBytes(base[16..], BE(index, 8))
  }

  /** crypto.chunkNonce and p2p.chunkNonce: a loop over the last eight bytes, in place. */
  method ChunkNonceInPlace(base: bytes, index: nat) returns (n: array<byte>)
    requires |base| == NONCE_SIZE && index < U64
    ensures fresh(n) && n[..] == Nonce(base, index)
  {
    n := new byte[NONCE_SIZE](i requires 0 <= i < NONCE_SIZE => base[i]);
    var ctr := BE(index, 8);
    for i := 0 to 8
      invariant n.Length == NONCE_SIZE
      invariant forall j :: 0 <= j < 16 + i ==> n[j] == Nonce(base, index)[j]
      invariant forall j :: 16 + i <= j < NONCE_SIZE ==> n[j] == base[j]
    {
      n[NONCE_SIZE - 8 + i] := XorByte(n[NONCE_SIZE - 8 + i], ctr[i]);
    }
  }

  /** app.chunkNonce: read the last eight bytes as a number, XOR, write it back. */
  function ChunkNonceWord(base: bytes, index: nat): (n: bytes)
    requires |base| == NONCE_SIZE && index < U64
  {
    base[..16] + BE(Xor(FromBE(base[16..24]), index), 8)
  }

  /** The two styles agree on every base and every index. */
  lemma NonceStylesAgree(base: bytes, index: nat)
    requires |base| == NONCE_SIZE && index < U64
    ensures ChunkNonceWord(base, index) == Nonce(base, index)
  {
    var t, c := base[16..], BE(index, 8);
    assert base[16..24] == t;
    Widths();
    FromBEOfBE(index, 8);
    FromBEXor(t, c);
    BEOfFromBE(XorBytes(t, c));
  }

  /** Two indices of one file never share a nonce. */
  lemma NonceInjective(base: bytes, i: nat, j: nat)
    requires |base| == NONCE_SIZE && i < U64 && j < U64
    ensures Nonce(base, i) == Nonce(base, j) <==> i == j
  {
    if Nonce(base, i) == Nonce(base, j) {
      var t := base[16..];
      assert Nonce(base, i)[16..] == XorBytes(t, BE(i, 8)) && Nonce(base, j)[16..] == XorBytes(t, BE(j, 8));
      Widths();
      FromBEOfBE(i, 8);
      FromBEOfBE(j, 8);
      FromBEXor(t, BE(i, 8));
      FromBEXor(t, BE(j, 8));
      XorCancel(FromBE(t), i, j);
    }
  }

  lemma XorCancel(t: nat, i: nat, j: nat)
    requires Xor(t, i) == Xor(t, j)
    ensures i == j
  {
    XorCommutes(t, i);
    XorCommutes(t, j);
    XorInvolution(i, t);
    XorInvolution(j, t);
  }

  lemma {:induction false} XorCommutes(a: nat, b: nat)
    ensures Xor(a, b) == Xor(b, a)
    decreases a + b
  {
    if a != 0 || b != 0 {
      XorCommutes(a / 2, b / 2);
    }
  }
}
