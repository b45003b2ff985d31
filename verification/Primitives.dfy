/** The cryptographic primitives, as values whose laws are stated by ghost predicates.

    Nothing here is assumed: every theorem that needs a law of a primitive asks for it in a
    `requires` clause, and the stand-ins at the end show that the laws can be met. */
module Primitives {
  import opened Bytes

  const NONCE_SIZE: nat := 24
  const KEY_SIZE: nat := 32
  const OVERHEAD: nat := 16

  /** XChaCha20-Poly1305 without additional data: (key, nonce, message). */
  datatype Aead = Aead(seal: (bytes, bytes, bytes) -> bytes, open: (bytes, bytes, bytes) -> Option<bytes>) {
    /** Opening undoes sealing, and a ciphertext is the plaintext plus a 16-byte tag
        (section 2.8 of RFC 8439). */
    ghost predicate Correct() {
      && (forall k, n, p :: |seal(k, n, p)| == |p| + OVERHEAD)
      && (forall k, n, p :: open(k, n, seal(k, n, p)) == Some(p))
      && (forall k, n, c :: open(k, n, c).Some? ==> |c| == |open(k, n, c).value| + OVERHEAD)
    }
  }

  /** X25519. `shared` fails on the all-zero output, as the Go library does. */
  datatype Dh = Dh(pub: bytes -> bytes, shared: (bytes, bytes) -> Option<bytes>) {
    /** Both sides compute the same secret (section 6.1 of RFC 7748). */
    ghost predicate Commutes() {
      && (forall a: bytes :: |pub(a)| == 32)
      && (forall a: bytes, b: bytes :: shared(a, pub(b)) == shared(b, pub(a)))
    }
  }

  /** Ed25519. */
  datatype Signer = Signer(pub: bytes -> bytes, sign: (bytes, bytes) -> bytes, verify: (bytes, bytes, bytes) -> bool) {
    /** A signature verifies under its own public key (section 5.1 of RFC 8032). */
    ghost predicate Correct() {
      && (forall k: bytes :: |pub(k)| == 32)
      && (forall k: bytes, m: bytes :: |sign(k, m)| == 64)
      && (forall k: bytes, m: bytes :: verify(pub(k), m, sign(k, m)))
    }
  }

  type Hash = bytes -> bytes

  /** The hash tells these two strings apart unless they are equal. */
  ghost predicate NoCollision(hash: Hash, a: bytes, b: bytes) {
    hash(a) == hash(b) ==> a == b
  }

  /** The key of a three-part digest: SHA256(shared || first public key || second public key).
      The p2p session key and both file-key wrappers use this layout. */
  function AgreedKey(hash: Hash, shared: bytes, first: bytes, second: bytes): bytes {
    hash(shared + first + second)
  }

  // ---------- stand-ins ----------

  function Zeros(n: nat): (z: bytes)
    ensures |z| == n
  {
    seq(n, _ => 0)
  }

  function ToyAead(): Aead {
    Aead((k: bytes, n: bytes, p: bytes) => p + Zeros(OVERHEAD),
         (k: bytes, n: bytes, c: bytes) =>
           if |c| >= OVERHEAD && c[|c| - OVERHEAD..] == Zeros(OVERHEAD) then Some(c[..|c| - OVERHEAD]) else None)
  }

  function ToyDh(): Dh {
    Dh((a: bytes) => Zeros(32), (a: bytes, b: bytes) => Some(Zeros(32)))
  }

  function ToySigner(): Signer {
    Signer((k: bytes) => Zeros(32), (k: bytes, m: bytes) => Zeros(64), (p: bytes, m: bytes, s: bytes) => s == Zeros(64))
  }

  lemma LawsAreConsistent()
    ensures ToyAead().Correct() && ToyDh().Commutes() && ToySigner().Correct()
  {
    var a := ToyAead();
    forall k, n, p
      ensures |a.seal(k, n, p)| == |p| + OVERHEAD && a.open(k, n, a.seal(k, n, p)) == Some(p)
    {
      var c := p + Zeros(OVERHEAD);
      assert c[|c| - OVERHEAD..] == Zeros(OVERHEAD) && c[..|c| - OVERHEAD] == p;
    }
  }
}
