/** Bytes, big-endian integers and the exclusive or of two naturals.

    Exclusive or is defined bit by bit on naturals, so the same operator serves a single byte
    and a 64-bit counter; `FromBEXor` is the law that ties the two widths together. */
module Bytes {
  newtype byte = x: int | 0 <= x < 0x100
  type bytes = seq<byte>

  /** 2^64: counters of the source are uint64 and wrap here. */
  const U64: nat := 0x1_0000_0000_0000_0000
  /** 2^63: one more than the largest int64. */
  const I64: int := 0x8000_0000_0000_0000
  const U32: nat := 0x1_0000_0000

  type int64 = x: int | -I64 <= x < I64

  datatype Option<+T> = None | Some(value: T)

  function Min(a: int, b: int): int { if a <= b then a else b }

  function Pow256(w: nat): (p: nat)
    ensures p >= 1
  {
    if w == 0 then 1 else 256 * Pow256(w - 1)
  }

  /** The low `w` bytes of `n`, most significant first (encoding/binary's PutUint32, PutUint64). */
  function BE(n: nat, w: nat): (s: bytes)
    ensures |s| == w
    decreases w, n
  {
    if w == 0 then [] else BE(n / 256, w - 1) + [(n % 256) as byte]
  }

  function FromBE(s: bytes): nat {
    if s == [] then 0 else 256 * FromBE(s[..|s| - 1]) + s[|s| - 1] as nat
  }

  lemma {:induction false} FromBEBound(s: bytes)
    ensures FromBE(s) < Pow256(|s|)
  {
    if s != [] {
      FromBEBound(s[..|s| - 1]);
    }
  }

  /** Decoding undoes encoding for every number that fits. */
  lemma {:induction false} FromBEOfBE(n: nat, w: nat)
    requires n < Pow256(w)
    ensures FromBE(BE(n, w)) == n
    decreases w
  {
    if w != 0 {
      FromBEOfBE(n / 256, w - 1);
      assert BE(n, w)[..w - 1] == BE(n / 256, w - 1);
    }
  }

  /** Encoding undoes decoding for every byte string. */
  lemma {:induction false} BEOfFromBE(s: bytes)
    ensures BE(FromBE(s), |s|) == s
  {
    if s != [] {
      var t, last := s[..|s| - 1], s[|s| - 1];
      BEOfFromBE(t);
      assert FromBE(s) / 256 == FromBE(t) && FromBE(s) % 256 == last as nat;
      assert s == t + [last];
    }
  }

  lemma Widths()
    ensures Pow256(1) == 256 && Pow256(4) == U32 && Pow256(8) == U64
  {
    assert Pow256(2) == 0x1_0000;
    assert Pow256(4) == U32;
    assert Pow256(6) == 0x1_0000 * U32;
  }

  /** A two's-complement reading of an unsigned 64-bit value: Go's int64(x). */
  function ToInt64(u: nat): int
    requires u < U64
  {
    if u < I64 then u else u - U64
  }

  // ---------- exclusive or ----------

  function Xor(a: nat, b: nat): nat
    decreases a + b
  {
    if a == 0 && b == 0 then 0
    else 2 * Xor(a / 2, b / 2) + (a % 2 + b % 2) % 2
  }

  function Pow2(k: nat): (p: nat)
    ensures p >= 1
  {
    if k == 0 then 1 else 2 * Pow2(k - 1)
  }

  lemma {:induction false} XorBound(a: nat, b: nat, k: nat)
    requires a < Pow2(k) && b < Pow2(k)
    ensures Xor(a, b) < Pow2(k)
    decreases k
  {
    if k != 0 {
      XorBound(a / 2, b / 2, k - 1);
    }
  }

  lemma XorSplit2(a: nat, b: nat, c: nat, d: nat)
    requires b < 2 && d < 2
    ensures Xor(2 * a + b, 2 * c + d) == 2 * Xor(a, c) + Xor(b, d)
  {
    assert (2 * a + b) / 2 == a && (2 * c + d) / 2 == c;
    assert Xor(0, 0) == 0;
  }

  lemma XorSplit4(a: nat, b: nat, c: nat, d: nat)
    requires b < 4 && d < 4
    ensures Xor(4 * a + b, 4 * c + d) == 4 * Xor(a, c) + Xor(b, d)
  {
    hide Xor;
    var b1, b0, d1, d0 := b / 2, b % 2, d / 2, d % 2;
    XorSplit2(2 * a + b1, b0, 2 * c + d1, d0);
    XorSplit2(a, b1, c, d1);
    XorSplit2(b1, b0, d1, d0);
    assert b == 2 * b1 + b0 && d == 2 * d1 + d0;
    assert 4 * a + b == 2 * (2 * a + b1) + b0 && 4 * c + d == 2 * (2 * c + d1) + d0;
  }

  lemma XorSplit16(a: nat, b: nat, c: nat, d: nat)
    requires b < 16 && d < 16
    ensures Xor(16 * a + b, 16 * c + d) == 16 * Xor(a, c) + Xor(b, d)
  {
    hide Xor;
    var b1, b0, d1, d0 := b / 4, b % 4, d / 4, d % 4;
    var m, n := 4 * a + b1, 4 * c + d1;
    XorSplit4(m, b0, n, d0);
    XorSplit4(a, b1, c, d1);
    XorSplit4(b1, b0, d1, d0);
    assert b == 4 * b1 + b0 && d == 4 * d1 + d0;
    assert 16 * a + b == 4 * m + b0 && 16 * c + d == 4 * n + d0;
  }

  /** XOR works on the low byte and on the rest of a number separately. */
  lemma XorSplit256(a: nat, b: nat, c: nat, d: nat)
    requires b < 256 && d < 256
    ensures Xor(256 * a + b, 256 * c + d) == 256 * Xor(a, c) + Xor(b, d)
  {
    hide Xor;
    var b1, b0, d1, d0 := b / 16, b % 16, d / 16, d % 16;
    var m, n := 16 * a + b1, 16 * c + d1;
    XorSplit16(m, b0, n, d0);
    XorSplit16(a, b1, c, d1);
    XorSplit16(b1, b0, d1, d0);
    assert b == 16 * b1 + b0 && d == 16 * d1 + d0;
    assert 256 * a + b == 16 * m + b0 && 256 * c + d == 16 * n + d0;
  }

  /** XOR-ing twice with the same value gives the original back. */
  lemma {:induction false} XorInvolution(a: nat, b: nat)
    ensures Xor(Xor(a, b), b) == a
    decreases a + b
  {
    if a == 0 && b == 0 {
      XorBits(0, 0);
    } else {
      hide Xor;
      var a1, a0, b1, b0 := a / 2, a % 2, b / 2, b % 2;
      XorBits(a0, b0);
      calc {
        Xor(Xor(a, b), b);
        { assert a == 2 * a1 + a0 && b == 2 * b1 + b0; }
        Xor(Xor(2 * a1 + a0, 2 * b1 + b0), 2 * b1 + b0);
        { XorSplit2(a1, a0, b1, b0); }
        Xor(2 * Xor(a1, b1) + Xor(a0, b0), 2 * b1 + b0);
        { XorSplit2(Xor(a1, b1), Xor(a0, b0), b1, b0); }
        2 * Xor(Xor(a1, b1), b1) + Xor(Xor(a0, b0), b0);
        { XorInvolution(a1, b1); }
        2 * a1 + a0;
      }
    }
  }

  lemma XorBits(x: nat, y: nat)
    requires x < 2 && y < 2
    ensures Xor(x, y) == (if x == y then 0 else 1) && Xor(Xor(x, y), y) == x
  {
    assert Xor(0, 0) == 0 && Xor(0, 1) == 1 && Xor(1, 0) == 1 && Xor(1, 1) == 0;
  }

  function XorByte(a: byte, b: byte): (r: byte)
  {
    assert Pow2(2) == 4 && Pow2(4) == 16 && Pow2(6) == 64 && Pow2(8) == 256;
    XorBound(a as nat, b as nat, 8);
    Xor(a as nat, b as nat) as byte
  }

  function XorBytes(s: bytes, t: bytes): (r: bytes)
    requires |s| == |t|
    ensures |r| == |s|
  {
    seq(|s|, i requires 0 <= i < |s| => XorByte(s[i], t[i]))
  }

  /** XOR of two byte strings of one width, byte by byte, is the XOR of the numbers they stand for. */
  lemma {:induction false} FromBEXor(s: bytes, t: bytes)
    requires |s| == |t|
    ensures FromBE(XorBytes(s, t)) == Xor(FromBE(s), FromBE(t))
  {
    if s != [] {
      var n := |s| - 1;
      FromBEXor(s[..n], t[..n]);
      var r := XorBytes(s, t);
      assert r[..n] == XorBytes(s[..n], t[..n]);
      XorSplit256(FromBE(s[..n]), s[n] as nat, FromBE(t[..n]), t[n] as nat);
    }
  }

  // ---------- arithmetic ----------

  /** How many pieces of at most `d` make up `n`. */
  function CeilDiv(n: nat, d: nat): nat
    requires d > 0
  {
    (n + d - 1) / d
  }

  lemma Peel(k: nat, c: nat)
    requires k > 0
    ensures k * c == (k - 1) * c + c
  {}

  lemma CeilDivStep(n: nat, d: nat)
    requires d > 0
    ensures CeilDiv(n, d) == if n == 0 then 0 else 1 + CeilDiv(n - Min(d, n), d)
  {
    if n == 0 {
      DivUnique(d - 1, d, 0, d - 1);
    } else if n < d {
      DivUnique(n + d - 1, d, 1, n - 1);
      DivUnique(d - 1, d, 0, d - 1);
    } else {
      var q, r := (n - 1) / d, (n - 1) % d;
      Peel(q + 1, d);
      DivUnique(n + d - 1, d, q + 1, r);
    }
  }

  lemma DivUnique(x: nat, d: nat, q: nat, r: nat)
    requires d > 0 && r < d && x == q * d + r
    ensures x / d == q
  {
    var q', r' := x / d, x % d;
    assert q' * d + r' == q * d + r;
    if q < q' {
      Gap(q, q', d);
    } else if q' < q {
      Gap(q', q, d);
    }
  }

  lemma Gap(a: nat, b: nat, d: nat)
    requires a < b
    ensures a * d + d <= b * d
  {
    var k := b - a - 1;
    assert b * d == a * d + d + k * d;
  }
}
