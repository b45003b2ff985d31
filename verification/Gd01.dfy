/** The GD01 chunked file format as a pure specification: one encoder, one parser with the two
    length bounds of the two implementations, and the laws that make sealed files interchangeable.

    Layout: "GD01" || header nonce (24) || { BE32 length || sealed chunk }*. */
module Gd01 {
  import opened Bytes
  import opened Primitives
  import opened ChunkNonce

  const MAGIC: bytes := [0x47, 0x44, 0x30, 0x31]
  const HEADER_LEN: nat := 28
  /** 1 MiB: the chunk size every implementation instantiates. */
  const CHUNK_SIZE: nat := 0x10_0000

  /** What an opener has released when it stops, and whether it stopped at a clean end. */
  datatype Opened = Opened(plain: bytes, ok: bool)

  /** The accepted frame lengths. */
  datatype Bounds = Bounds(lo: nat, hi: nat)

  /** internal/crypto takes lengths from 16 to ChunkSize + 16, internal/app from 1 to ChunkSize + 64. */
  function StrictBounds(cs: nat): Bounds { Bounds(OVERHEAD, cs + OVERHEAD) }
  function LaxBounds(cs: nat): Bounds { Bounds(1, cs + 64) }

  /** Go's uint32(n). */
  function Uint32(n: nat): nat { if n < U32 then n else n % U32 }

  /** `index++` on a uint64. */
  function NextIndex(i: nat): (r: nat)
    requires i < U64
    ensures r < U64
  {
    if i + 1 == U64 then 0 else i + 1
  }

  /** Chunk sealing under one key and one header nonce: `seal` and `open` see the chunk index only. */
  datatype Codec = Codec(cs: nat, seal: (bytes, nat) -> bytes, open: (bytes, nat) -> Option<bytes>) {
    ghost predicate Valid() {
      && 1 <= cs && cs + 64 < U32
      && (forall p, i :: |seal(p, i)| == |p| + OVERHEAD)
      && (forall p, i :: open(seal(p, i), i) == Some(p))
      && (forall c, i :: open(c, i).Some? ==> |c| == |open(c, i).value| + OVERHEAD)
    }

    // ---------- encoding ----------

    function Frame(chunk: bytes, i: nat): bytes {
      BE(Uint32(|seal(chunk, i)|), 4) + seal(chunk, i)
    }

    function Frames(plain: bytes, i: nat): bytes
      requires 1 <= cs && i < U64
      decreases |plain|
    {
      if plain == [] then []
      else
        var n := Min(cs, |plain|);
        Frame(plain[..n], i) + Frames(plain[n..], NextIndex(i))
    }

    // ---------- parsing ----------

    function OpenFrames(b: Bounds, s: bytes, i: nat): Opened
      requires i < U64
      decreases |s|
    {
      if s == [] then Opened([], true)
      else if |s| < 4 then Opened([], false)
      else
        var n := FromBE(s[..4]);
        if n < b.lo || n > b.hi || |s| < 4 + n then Opened([], false)
        else
          match open(s[4..4 + n], i)
          case None => Opened([], false)
          case Some(p) =>
            var r := OpenFrames(b, s[4 + n..], NextIndex(i));
            Opened(p + r.plain, r.ok)
    }

    // ---------- chunk arithmetic ----------

    /** The bytes in `k` full chunks. */
    function Full(k: nat): nat {
      if k == 0 then 0 else cs + Full(k - 1)
    }

    /** Where chunk `k` of an `n`-byte plaintext starts (clipped to the end). */
    function Off(n: nat, k: nat): nat { Min(Full(k), n) }

    function ChunkCount(n: nat): nat
      requires 1 <= cs
    {
      if n == 0 then 0 else 1 + ChunkCount(n - Min(cs, n))
    }

    /** The bytes of chunk `k`. */
    function Chunk(plain: bytes, k: nat): bytes {
      plain[Off(|plain|, k)..Off(|plain|, k + 1)]
    }

    lemma {:induction false} ChunkCountBounds(n: nat, k: nat)
      requires 1 <= cs
      ensures k < ChunkCount(n) <==> Off(n, k) < n
      decreases k
    {
      if k > 0 && n > 0 {
        ChunkCountBounds(n - Min(cs, n), k - 1);
      }
    }

    /** The usual closed forms: k * cs bytes in k chunks, ceil(n / cs) chunks in n bytes. */
    lemma {:induction false} ClosedForms(n: nat, k: nat)
      requires 1 <= cs
      ensures Full(k) == k * cs
      ensures ChunkCount(n) == CeilDiv(n, cs)
      decreases n + k
    {
      if k > 0 {
        ClosedForms(n, k - 1);
        Peel(k, cs);
      } else if n > 0 {
        ClosedForms(n - Min(cs, n), 0);
        CeilDivStep(n, cs);
      } else {
        CeilDivStep(0, cs);
      }
    }

    /** The rest of the plaintext at chunk `k` is chunk `k` followed by the rest at chunk `k + 1`. */
    lemma NextRest(plain: bytes, k: nat)
      requires 1 <= cs && k < ChunkCount(|plain|)
      ensures Off(|plain|, k) < |plain|
      ensures plain[Off(|plain|, k)..] == Chunk(plain, k) + plain[Off(|plain|, k + 1)..]
      ensures 0 < |Chunk(plain, k)| <= cs
      ensures |Chunk(plain, k)| < cs ==> Off(|plain|, k + 1) == |plain|
    {
      ChunkCountBounds(|plain|, k);
    }

    // ---------- the encoder ----------

    lemma FrameLength(chunk: bytes, i: nat)
      requires Valid() && |chunk| <= cs
      ensures |Frame(chunk, i)| == |chunk| + 20
      ensures FromBE(Frame(chunk, i)[..4]) == |chunk| + OVERHEAD
      ensures Frame(chunk, i)[4..] == seal(chunk, i)
    {
      Widths();
      var sealed := seal(chunk, i);
      FromBEOfBE(|sealed|, 4);
      assert Frame(chunk, i)[..4] == BE(|sealed|, 4);
    }

    lemma {:induction false} FramesLength(plain: bytes, i: nat)
      requires Valid() && i < U64
      ensures |Frames(plain, i)| == |plain| + 20 * ChunkCount(|plain|)
      decreases |plain|
    {
      hide BE;
      if plain != [] {
        var n := Min(cs, |plain|);
        FrameLength(plain[..n], i);
        FramesLength(plain[n..], NextIndex(i));
      }
    }

    lemma FramesCons(chunk: bytes, rest: bytes, i: nat)
      requires i < U64 && 0 < |chunk| <= cs && (rest == [] || |chunk| == cs)
      ensures Frames(chunk + rest, i) == Frame(chunk, i) + Frames(rest, NextIndex(i))
    {
      hide BE, FromBE;
      var p := chunk + rest;
      assert Min(cs, |p|) == |chunk| && p[..|chunk|] == chunk && p[|chunk|..] == rest;
    }

    lemma NothingToSeal(i: nat)
      requires 1 <= cs && i < U64
      ensures Frames([], i) == []
    {}

    /** A streaming sealer may emit whole chunks first and the rest later. */
    lemma {:induction false} FramesAppend(p: bytes, q: bytes, k: nat, i: nat)
      requires 1 <= cs && i + k < U64 && |p| == Full(k)
      ensures Frames(p + q, i) == Frames(p, i) + Frames(q, i + k)
      decreases k
    {
      hide BE, FromBE, Codec.Frames, Codec.Frame;
      if k == 0 {
        assert p == [] && p + q == q;
        NothingToSeal(i);
        assert Frames(p, i) + Frames(q, i) == Frames(q, i);
      } else {
        var c, p' := p[..cs], p[cs..];
        calc {
          Frames(p + q, i);
          { assert p + q == c + (p' + q); FramesCons(c, p' + q, i); }
          Frame(c, i) + Frames(p' + q, i + 1);
          { FramesAppend(p', q, k - 1, i + 1); }
          Frame(c, i) + (Frames(p', i + 1) + Frames(q, i + k));
          { Reassociate(Frame(c, i), Frames(p', i + 1), Frames(q, i + k)); }
          (Frame(c, i) + Frames(p', i + 1)) + Frames(q, i + k);
          { assert p == c + p'; FramesCons(c, p', i); }
          Frames(p, i) + Frames(q, i + k);
        }
      }
    }

    // ---------- round trip ----------

    /** One genuine frame in front of `rest` opens to its chunk, then the opener goes on. */
    lemma OpenFrame(b: Bounds, chunk: bytes, rest: bytes, i: nat)
      requires Valid() && i < U64 && 0 < |chunk| <= cs
      requires b.lo <= 17 && cs + OVERHEAD <= b.hi
      ensures var r := OpenFrames(b, rest, NextIndex(i));
        OpenFrames(b, Frame(chunk, i) + rest, i) == Opened(chunk + r.plain, r.ok)
    {
      hide BE, FromBE;
      var frame := Frame(chunk, i);
      var s, n := frame + rest, |chunk| + OVERHEAD;
      FrameLength(chunk, i);
      assert s[..4] == frame[..4] && s[4..4 + n] == frame[4..] && s[4 + n..] == rest;
    }

    lemma NothingOpens(b: Bounds, i: nat)
      requires 1 <= cs && i < U64
      ensures Frames([], i) == [] && OpenFrames(b, [], i) == Opened([], true)
    {}

    /** The next chunk of a plaintext, and the rest. */
    lemma HeadAndRest(plain: bytes, n: nat)
      requires 1 <= cs && plain != [] && n == Min(cs, |plain|)
      ensures plain == plain[..n] + plain[n..] && |plain[..n]| == n > 0 && (plain[n..] == [] || n == cs)
    {}

    /** Opening the frames of any plaintext gives it back, under either implementation's bounds. */
    lemma {:induction false} RoundTrip(b: Bounds, plain: bytes, i: nat)
      requires Valid() && i < U64
      requires b.lo <= 17 && cs + OVERHEAD <= b.hi
      ensures OpenFrames(b, Frames(plain, i), i) == Opened(plain, true)
      decreases |plain|
    {
      hide BE, FromBE, Codec.Frames, Codec.OpenFrames, Codec.Frame;
      if plain == [] {
        NothingOpens(b, i);
      } else {
        var n := Min(cs, |plain|);
        var chunk, rest := plain[..n], plain[n..];
        HeadAndRest(plain, n);
        FramesCons(chunk, rest, i);
        OpenFrame(b, chunk, Frames(rest, NextIndex(i)), i);
        RoundTrip(b, rest, NextIndex(i));
      }
    }

    // ---------- the accepted language ----------

    /** No forgery: whatever an opener presents while walking `s` opens at index `i` only if it
        is chunk `i` of `plain`, sealed for index `i`. */
    ghost predicate NoForgery(plain: bytes, b: Bounds, s: bytes, i: nat)
      requires 1 <= cs && i < U64
      decreases |s|
    {
      |s| >= 4 ==>
        var n := FromBE(s[..4]);
        b.lo <= n <= b.hi && |s| >= 4 + n ==>
          && (open(s[4..4 + n], i).Some? ==> i < ChunkCount(|plain|) && s[4..4 + n] == seal(Chunk(plain, i), i))
          && NoForgery(plain, b, s[4 + n..], NextIndex(i))
    }

    /** `s` is chunks `j`, `j+1`, ... `k-1` of the sealed file, whole and in order. */
    ghost predicate IsRun(plain: bytes, j: nat, k: nat, s: bytes)
      requires 1 <= cs && j < U64
    {
      && j <= k <= ChunkCount(|plain|)
      && Off(|plain|, j) <= Off(|plain|, k)
      && s == Frames(plain[Off(|plain|, j)..Off(|plain|, k)], j)
    }

    /** An opener that starts at chunk `j` releases chunks `j` to `k-1`, and accepts only if that is all there was. */
    ghost predicate Released(plain: bytes, b: Bounds, s: bytes, j: nat, k: nat)
      requires 1 <= cs && j < U64
    {
      && j <= k <= ChunkCount(|plain|)
      && Off(|plain|, j) <= Off(|plain|, k)
      && OpenFrames(b, s, j).plain == plain[Off(|plain|, j)..Off(|plain|, k)]
      && (OpenFrames(b, s, j).ok ==> IsRun(plain, j, k, s))
    }

    /** Without forgeries an opener accepts exactly the sealed file cut after some whole chunk
        (so nothing reordered, repeated, altered or cut inside a frame), and whether or not it
        accepts, it releases the plaintext of a whole number of leading chunks. */
    lemma {:induction false} AcceptedFrom(plain: bytes, b: Bounds, s: bytes, j: nat)
      requires Valid() && b.lo <= 17 && cs + OVERHEAD <= b.hi
      requires j <= ChunkCount(|plain|) < U64
      requires NoForgery(plain, b, s, j)
      ensures OpenFrames(b, s, j).ok <==> exists k :: IsRun(plain, j, k, s)
      ensures exists k :: Released(plain, b, s, j, k)
      decreases |s|
    {
      hide BE, FromBE;
      var n := if |s| >= 4 then FromBE(s[..4]) else 0;
      if s == [] || |s| < 4 || n < b.lo || n > b.hi || |s| < 4 + n || open(s[4..4 + n], j).None? {
        ReleasedNothing(plain, b, s, j);
      } else {
        AcceptedFrom(plain, b, s[4 + n..], j + 1);
        var k :| Released(plain, b, s[4 + n..], j + 1, k);
        ReleasedCons(plain, b, s, j, k, n);
      }
      RunIsAccepted(plain, b, s, j);
    }

    lemma RunIsAccepted(plain: bytes, b: Bounds, s: bytes, j: nat)
      requires Valid() && j < U64 && b.lo <= 17 && cs + OVERHEAD <= b.hi
      ensures (exists k :: IsRun(plain, j, k, s)) ==> OpenFrames(b, s, j).ok
    {
      if k :| IsRun(plain, j, k, s) {
        RoundTrip(b, plain[Off(|plain|, j)..Off(|plain|, k)], j);
      }
    }

    lemma ReleasedNothing(plain: bytes, b: Bounds, s: bytes, j: nat)
      requires 1 <= cs && j <= ChunkCount(|plain|) && j < U64
      requires OpenFrames(b, s, j) == Opened([], s == [])
      ensures Released(plain, b, s, j, j)
    {
      assert plain[Off(|plain|, j)..Off(|plain|, j)] == [];
    }

    lemma ReleasedCons(plain: bytes, b: Bounds, s: bytes, j: nat, k: nat, n: nat)
      requires Valid() && j < ChunkCount(|plain|) < U64
      requires |s| >= 4 + n && n == FromBE(s[..4]) && b.lo <= n <= b.hi && s[4..4 + n] == seal(Chunk(plain, j), j)
      requires Released(plain, b, s[4 + n..], j + 1, k)
      ensures Released(plain, b, s, j, k)
    {
      hide BE, FromBE;
      var r := OpenFrames(b, s[4 + n..], j + 1);
      NextRest(plain, j);
      SpanCons(plain, j, k);
      assert OpenFrames(b, s, j) == Opened(Chunk(plain, j) + r.plain, r.ok);
      if r.ok {
        RunCons(plain, j, k, s, n);
      }
    }

    lemma SpanCons(plain: bytes, j: nat, k: nat)
      requires 1 <= cs && j < ChunkCount(|plain|) && Off(|plain|, j + 1) <= Off(|plain|, k)
      ensures plain[Off(|plain|, j)..Off(|plain|, k)] == Chunk(plain, j) + plain[Off(|plain|, j + 1)..Off(|plain|, k)]
    {}

    lemma RunCons(plain: bytes, j: nat, k: nat, s: bytes, n: nat)
      requires Valid() && j < k <= ChunkCount(|plain|) < U64
      requires |s| >= 4 + n && n == FromBE(s[..4]) && s[4..4 + n] == seal(Chunk(plain, j), j)
      requires IsRun(plain, j + 1, k, s[4 + n..])
      ensures IsRun(plain, j, k, s)
    {
      hide BE, FromBE, Codec.Frames, Codec.Frame, Codec.Chunk, Codec.ChunkCount;
      var c, rest := Chunk(plain, j), plain[Off(|plain|, j + 1)..Off(|plain|, k)];
      var head, tail := s[..4 + n], s[4 + n..];
      NextRest(plain, j);
      calc {
        s;
        head + tail;
        { assert head[..4] == s[..4] && head[4..] == s[4..4 + n]; FrameBytes(head, c, j); }
        Frame(c, j) + Frames(rest, j + 1);
        { FramesCons(c, rest, j); }
        Frames(c + rest, j);
        { SpanCons(plain, j, k); }
        Frames(plain[Off(|plain|, j)..Off(|plain|, k)], j);
      }
    }

    lemma FrameBytes(t: bytes, chunk: bytes, j: nat)
      requires Valid() && |chunk| <= cs && |t| >= 4
      requires t[4..] == seal(chunk, j) && FromBE(t[..4]) == |t| - 4
      ensures t == Frame(chunk, j)
    {
      BEOfFromBE(t[..4]);
      assert t == t[..4] + t[4..];
    }

    /** The sealed file itself, cut anywhere, contains no forgery: the hypothesis of
        `AcceptedFrom` is met by every truncation of every sealed file. */
    lemma {:induction false} TruncationHasNoForgery(plain: bytes, b: Bounds, j: nat, t: nat)
      requires Valid() && j <= ChunkCount(|plain|) < U64
      requires t <= |Frames(plain[Off(|plain|, j)..], j)|
      ensures NoForgery(plain, b, Frames(plain[Off(|plain|, j)..], j)[..t], j)
      decreases ChunkCount(|plain|) - j
    {
      hide BE, FromBE, Codec.Frames, Codec.Frame, NoForgery, Codec.ChunkCount, Codec.Full, Codec.Chunk;
      var rest := plain[Off(|plain|, j)..];
      if t < 4 {
        ShortIsNoForgery(plain, b, Frames(rest, j)[..t], j);
      } else {
        if j == ChunkCount(|plain|) {
          AllSealed(plain, j);
          assert false;
        }
        var chunk, after := Chunk(plain, j), plain[Off(|plain|, j + 1)..];
        NextRest(plain, j);
        FramesCons(chunk, after, j);
        var size := |Frame(chunk, j)|;
        if t >= size {
          TruncationHasNoForgery(plain, b, j + 1, t - size);
        }
        CutHasNoForgery(plain, b, Frames(after, j + 1), j, t);
      }
    }

    lemma AllSealed(plain: bytes, j: nat)
      requires 1 <= cs && j == ChunkCount(|plain|) < U64
      ensures Off(|plain|, j) == |plain| && Frames(plain[Off(|plain|, j)..], j) == []
    {
      ChunkCountBounds(|plain|, j);
    }

    lemma ShortIsNoForgery(plain: bytes, b: Bounds, s: bytes, j: nat)
      requires 1 <= cs && j < U64 && |s| < 4
      ensures NoForgery(plain, b, s, j)
    {}

    /** A genuine frame, or a piece of it, is no forgery. */
    lemma CutHasNoForgery(plain: bytes, b: Bounds, tail: bytes, j: nat, t: nat)
      requires Valid() && j < ChunkCount(|plain|) < U64 && 0 < |Chunk(plain, j)| <= cs
      requires var frame := Frame(Chunk(plain, j), j);
        4 <= t <= |frame + tail| && (t >= |frame| ==> NoForgery(plain, b, tail[..t - |frame|], j + 1))
      ensures NoForgery(plain, b, (Frame(Chunk(plain, j), j) + tail)[..t], j)
    {
      hide BE, FromBE, Codec.ChunkCount, Codec.Chunk, Codec.Frames;
      var chunk := Chunk(plain, j);
      FrameLength(chunk, j);
      CutFrame(Frame(chunk, j), tail, t);
    }

    static lemma CutFrame(frame: bytes, rest: bytes, t: nat)
      requires 4 <= |frame| && 4 <= t <= |frame + rest|
      ensures var s := (frame + rest)[..t];
        && s[..4] == frame[..4]
        && (t >= |frame| ==> s[4..|frame|] == frame[4..] && s[|frame|..] == rest[..t - |frame|])
    {}

    /** A sealed file cut at byte `t` opens exactly when `t` is a frame boundary. */
    lemma CutIsAcceptedOnlyBetweenFrames(plain: bytes, b: Bounds, t: nat)
      requires Valid() && b.lo <= 17 && cs + OVERHEAD <= b.hi
      requires ChunkCount(|plain|) < U64 && t <= |Frames(plain, 0)|
      ensures OpenFrames(b, Frames(plain, 0)[..t], 0).ok
        <==> exists k: nat :: k <= ChunkCount(|plain|) && t == |Frames(plain[..Off(|plain|, k)], 0)|
    {
      hide BE, FromBE;
      var s := Frames(plain, 0)[..t];
      assert plain[Off(|plain|, 0)..] == plain;
      TruncationHasNoForgery(plain, b, 0, t);
      AcceptedFrom(plain, b, s, 0);
      if k: nat :| k <= ChunkCount(|plain|) && t == |Frames(plain[..Off(|plain|, k)], 0)| {
        PrefixOfFrames(plain, k);
        assert plain[0..Off(|plain|, k)] == plain[..Off(|plain|, k)];
        assert IsRun(plain, 0, k, s);
      }
      if k :| IsRun(plain, 0, k, s) {
        assert plain[0..Off(|plain|, k)] == plain[..Off(|plain|, k)];
      }
    }

    lemma PrefixOfFrames(plain: bytes, k: nat)
      requires Valid() && k <= ChunkCount(|plain|) < U64
      ensures Frames(plain[..Off(|plain|, k)], 0) <= Frames(plain, 0)
    {
      hide BE, FromBE, Codec.Frames, Codec.ChunkCount, Codec.Full;
      var at := Off(|plain|, k);
      var p, q := plain[..at], plain[at..];
      assert plain == p + q;
      if q == [] {
        assert plain == p;
      } else {
        FewerChunks(|plain|, k);
        FramesAppend(p, q, k, 0);
      }
    }

    lemma FewerChunks(n: nat, k: nat)
      requires 1 <= cs && Off(n, k) < n
      ensures k < ChunkCount(n) && Off(n, k) == Full(k)
    {
      ChunkCountBounds(n, k);
    }

    // ---------- strict against lax ----------

    /** internal/crypto accepts a stream exactly when internal/app accepts it and no frame is
        longer than a full sealed chunk; the outputs are then the same. */
    lemma {:induction false} StrictRefinesLax(s: bytes, i: nat)
      requires Valid() && i < U64
      ensures OpenFrames(StrictBounds(cs), s, i).ok
        <==> OpenFrames(LaxBounds(cs), s, i).ok && FramesAtMost(s, cs + OVERHEAD)
      ensures OpenFrames(StrictBounds(cs), s, i).ok
        ==> OpenFrames(StrictBounds(cs), s, i) == OpenFrames(LaxBounds(cs), s, i)
      decreases |s|
    {
      hide BE, FromBE;
      if |s| >= 4 {
        var n := FromBE(s[..4]);
        if |s| >= 4 + n {
          StrictRefinesLax(s[4 + n..], NextIndex(i));
          var o := open(s[4..4 + n], i);
          assert o.Some? ==> n == |o.value| + OVERHEAD;
        }
      }
    }

    /** A stream only the lax opener takes: one genuine frame of ChunkSize + 1 bytes. */
    lemma LaxIsStrictlyLaxer(chunk: bytes)
      requires Valid() && |chunk| == cs + 1
      ensures OpenFrames(LaxBounds(cs), Frame(chunk, 0), 0) == Opened(chunk, true)
      ensures OpenFrames(StrictBounds(cs), Frame(chunk, 0), 0) == Opened([], false)
    {
      var s, sealed := Frame(chunk, 0), seal(chunk, 0);
      Widths();
      FromBEOfBE(|sealed|, 4);
      assert s[..4] == BE(|sealed|, 4) && s[4..4 + |sealed|] == sealed && s[4 + |sealed|..] == [];
      assert chunk + [] == chunk;
    }
  }

  /** Every length prefix met while walking the frames of `s` is at most `m`. */
  predicate FramesAtMost(s: bytes, m: nat)
    decreases |s|
  {
    |s| >= 4 ==>
      var n := FromBE(s[..4]);
      n <= m && (|s| >= 4 + n ==> FramesAtMost(s[4 + n..], m))
  }

  // ---------- whole files ----------

  /** The codec of one file: XChaCha20-Poly1305 under the file key and the per-chunk nonce. */
  function FileCodec(aead: Aead, key: bytes, header: bytes, cs: nat): Codec
    requires |header| == NONCE_SIZE
  {
    Codec(cs,
          (p: bytes, i: nat) => aead.seal(key, Nonce(header, i), p),
          (c: bytes, i: nat) => aead.open(key, Nonce(header, i), c))
  }

  function SealedFile(aead: Aead, key: bytes, header: bytes, cs: nat, plain: bytes): bytes
    requires |header| == NONCE_SIZE && 1 <= cs
  {
    MAGIC + header + FileCodec(aead, key, header, cs).Frames(plain, 0)
  }

  /** The result of opening a whole file. `created` says whether the header was accepted, which
      is when the source opens its destination. */
  datatype FileOpened = FileOpened(created: bool, result: Opened)

  function OpenedFile(aead: Aead, key: bytes, cs: nat, b: Bounds, s: bytes): FileOpened {
    if |s| < HEADER_LEN || s[..4] != MAGIC then FileOpened(false, Opened([], false))
    else FileOpened(true, FileCodec(aead, key, s[4..HEADER_LEN], cs).OpenFrames(b, s[HEADER_LEN..], 0))
  }

  lemma FileCodecValid(aead: Aead, key: bytes, header: bytes, cs: nat)
    requires aead.Correct() && |header| == NONCE_SIZE && 1 <= cs && cs + 64 < U32
    ensures FileCodec(aead, key, header, cs).Valid()
  {
    var c := FileCodec(aead, key, header, cs);
    forall p: bytes, i: nat
      ensures |c.seal(p, i)| == |p| + OVERHEAD && c.open(c.seal(p, i), i) == Some(p)
    {
      assert c.seal(p, i) == aead.seal(key, Nonce(header, i), p);
    }
    forall s: bytes, i: nat
      ensures c.open(s, i).Some? ==> |s| == |c.open(s, i).value| + OVERHEAD
    {
      assert c.open(s, i) == aead.open(key, Nonce(header, i), s);
    }
  }

  lemma HeaderParts(header: bytes, body: bytes)
    requires |header| == NONCE_SIZE
    ensures var s := MAGIC + header + body;
      |s| == HEADER_LEN + |body| && s[..4] == MAGIC && s[4..HEADER_LEN] == header && s[HEADER_LEN..] == body
  {}

  /** The sealed size: 28 + n + 20 * ceil(n / ChunkSize). */
  lemma SealedSize(aead: Aead, key: bytes, header: bytes, cs: nat, plain: bytes)
    requires aead.Correct() && |header| == NONCE_SIZE && 1 <= cs && cs + 64 < U32
    ensures |SealedFile(aead, key, header, cs, plain)| == HEADER_LEN + |plain| + 20 * CeilDiv(|plain|, cs)
  {
    FileCodecValid(aead, key, header, cs);
    FileCodec(aead, key, header, cs).FramesLength(plain, 0);
    FileCodec(aead, key, header, cs).ClosedForms(|plain|, 0);
  }

  /** Any sealer's output, opened by either opener, is the plaintext. */
  lemma Interchangeable(aead: Aead, key: bytes, header: bytes, cs: nat, plain: bytes)
    requires aead.Correct() && |header| == NONCE_SIZE && 1 <= cs && cs + 64 < U32
    ensures var s := SealedFile(aead, key, header, cs, plain);
      && OpenedFile(aead, key, cs, StrictBounds(cs), s) == FileOpened(true, Opened(plain, true))
      && OpenedFile(aead, key, cs, LaxBounds(cs), s) == FileOpened(true, Opened(plain, true))
  {
    var c := FileCodec(aead, key, header, cs);
    FileCodecValid(aead, key, header, cs);
    HeaderParts(header, c.Frames(plain, 0));
    c.RoundTrip(StrictBounds(cs), plain, 0);
    c.RoundTrip(LaxBounds(cs), plain, 0);
  }

  /** The format as shipped, with its chunk size of 1 MiB. */
  lemma ShippedFormat(aead: Aead, key: bytes, header: bytes, plain: bytes)
    requires aead.Correct() && |header| == NONCE_SIZE
    ensures var s := SealedFile(aead, key, header, CHUNK_SIZE, plain);
      && |s| == 28 + |plain| + 20 * CeilDiv(|plain|, CHUNK_SIZE)
      && OpenedFile(aead, key, CHUNK_SIZE, StrictBounds(CHUNK_SIZE), s).result == Opened(plain, true)
      && OpenedFile(aead, key, CHUNK_SIZE, LaxBounds(CHUNK_SIZE), s).result == Opened(plain, true)
  {
    SealedSize(aead, key, header, CHUNK_SIZE, plain);
    Interchangeable(aead, key, header, CHUNK_SIZE, plain);
  }

  /** The (nonce, ciphertext) pairs that sealing this one file has produced under its key. */
  ghost predicate Logged(aead: Aead, key: bytes, header: bytes, cs: nat, plain: bytes, nonce: bytes, c: bytes)
    requires |header| == NONCE_SIZE && 1 <= cs
  {
    var codec := FileCodec(aead, key, header, cs);
    exists j: nat :: j < codec.ChunkCount(|plain|) && nonce == Nonce(header, j) && c == codec.seal(codec.Chunk(plain, j), j)
  }

  /** Integrity of the primitive: only logged pairs open under this key. It is asked for the
      ciphertexts an opener meets in `s`, not for all byte strings. */
  ghost predicate Unforged(aead: Aead, key: bytes, header: bytes, cs: nat, plain: bytes, b: Bounds, s: bytes, i: nat)
    requires |header| == NONCE_SIZE && 1 <= cs && i < U64
    decreases |s|
  {
    |s| >= 4 ==>
      var n := FromBE(s[..4]);
      b.lo <= n <= b.hi && |s| >= 4 + n ==>
        && (aead.open(key, Nonce(header, i), s[4..4 + n]).Some?
            ==> Logged(aead, key, header, cs, plain, Nonce(header, i), s[4..4 + n]))
        && Unforged(aead, key, header, cs, plain, b, s[4 + n..], NextIndex(i))
  }

  /** Distinct nonces pin every logged ciphertext to its own index. */
  lemma {:induction false} UnforgedPinsIndices(aead: Aead, key: bytes, header: bytes, cs: nat, plain: bytes, b: Bounds, s: bytes, i: nat)
    requires |header| == NONCE_SIZE && 1 <= cs && i < U64
    requires FileCodec(aead, key, header, cs).ChunkCount(|plain|) < U64
    requires Unforged(aead, key, header, cs, plain, b, s, i)
    ensures FileCodec(aead, key, header, cs).NoForgery(plain, b, s, i)
    decreases |s|
  {
    if |s| >= 4 {
      var codec, n := FileCodec(aead, key, header, cs), FromBE(s[..4]);
      if b.lo <= n <= b.hi && |s| >= 4 + n {
        UnforgedPinsIndices(aead, key, header, cs, plain, b, s[4 + n..], NextIndex(i));
        var c := s[4..4 + n];
        if codec.open(c, i).Some? {
          var j: nat :| j < codec.ChunkCount(|plain|) && Nonce(header, i) == Nonce(header, j) && c == codec.seal(codec.Chunk(plain, j), j);
          NonceInjective(header, i, j);
        }
      }
    }
  }

  /** The accepted language. Keep the header, let only this file's chunks be sealed under the key:
      then either opener accepts a body exactly when it is the first `k` frames for some `k`,
      and what it releases is always the plaintext of whole leading chunks. */
  lemma AcceptedLanguage(aead: Aead, key: bytes, header: bytes, cs: nat, plain: bytes, b: Bounds, body: bytes)
    requires aead.Correct() && |header| == NONCE_SIZE && 1 <= cs && cs + 64 < U32
    requires b == StrictBounds(cs) || b == LaxBounds(cs)
    requires FileCodec(aead, key, header, cs).ChunkCount(|plain|) < U64
    requires Unforged(aead, key, header, cs, plain, b, body, 0)
    ensures var codec := FileCodec(aead, key, header, cs);
      var r := OpenedFile(aead, key, cs, b, MAGIC + header + body);
      && r.created
      && (r.result.ok <==> exists k: nat :: k <= codec.ChunkCount(|plain|) && body == codec.Frames(plain[..codec.Off(|plain|, k)], 0))
      && (exists k: nat :: k <= codec.ChunkCount(|plain|) && r.result.plain == plain[..codec.Off(|plain|, k)]
            && (r.result.ok ==> body == codec.Frames(plain[..codec.Off(|plain|, k)], 0)))
  {
    var codec := FileCodec(aead, key, header, cs);
    FileCodecValid(aead, key, header, cs);
    HeaderParts(header, body);
    UnforgedPinsIndices(aead, key, header, cs, plain, b, body, 0);
    codec.AcceptedFrom(plain, b, body, 0);
    forall k: nat | k <= codec.ChunkCount(|plain|)
      ensures plain[0..codec.Off(|plain|, k)] == plain[..codec.Off(|plain|, k)]
      ensures codec.IsRun(plain, 0, k, body) <==> body == codec.Frames(plain[..codec.Off(|plain|, k)], 0)
    {}
    var k :| codec.Released(plain, b, body, 0, k);
  }

  lemma Reassociate(a: bytes, b: bytes, c: bytes)
    ensures (a + b) + c == a + (b + c)
  {}
}
