/** The streaming loops over GD01 files: three sealers (internal/crypto, internal/app and
    app.sealWithProgress) and two openers, each proved against the format of module Gd01.

    The loops reuse one buffer of ChunkSize bytes; the source may break with an I/O error and
    the destination's disk may fill up. */
module Gd01Loops {
  import opened Bytes
  import opened Primitives
  import opened ChunkNonce
  import opened Files
  import opened Gd01

  /** What a sealer returns: both digests and the plaintext length. */
  datatype SealReport = SealReport(cipherHash: bytes, plainHash: bytes, n: nat)

  /** One progress callback: bytes done, total. */
  datatype Tick = Tick(done: nat, total: nat)

  /** The callbacks of the first `k` chunks of an `n`-byte file: one at the end of each chunk. */
  ghost predicate TicksOf(c: Codec, ticks: seq<Tick>, k: nat, n: nat, total: nat) {
    && |ticks| == k
    && forall i :: 0 <= i < k ==> ticks[i] == Tick(c.Off(n, i + 1), total)
  }

  /** Where a progress-reporting loop stands: `done` of `n` bytes in `k` chunks, all reported. */
  ghost predicate Progress(c: Codec, ticks: seq<Tick>, report: bool, k: nat, done: nat, n: nat, total: nat)
    requires 1 <= c.cs
  {
    && done == c.Off(n, k) && k <= c.ChunkCount(n) && k <= done
    && (report ==> TicksOf(c, ticks, k, n, total))
  }

  lemma ProgressStart(c: Codec, report: bool, n: nat, total: nat)
    requires 1 <= c.cs
    ensures Progress(c, [], report, 0, 0, n, total)
  {}

  lemma ProgressStep(c: Codec, ticks: seq<Tick>, report: bool, k: nat, done: nat, n: nat, total: nat)
    requires 1 <= c.cs && Progress(c, ticks, report, k, done, n, total) && done < n < I64
    ensures var done' := done + Min(c.cs, n - done);
      Progress(c, if report then ticks + [Tick(done', total)] else ticks, report, NextIndex(k), done', n, total)
  {
    c.ChunkCountBounds(n, k);
  }

  lemma ProgressEnd(c: Codec, ticks: seq<Tick>, report: bool, k: nat, n: nat, total: nat)
    requires 1 <= c.cs && Progress(c, ticks, report, k, n, n, total)
    ensures report ==> TicksOf(c, ticks, CeilDiv(n, c.cs), n, total)
  {
    c.ChunkCountBounds(n, k);
    c.ClosedForms(n, 0);
  }

  /** A sealing loop has written `fed` of the file `all`, and has the frames of `rest` to go. */
  ghost predicate Sealing(c: Codec, all: bytes, fed: bytes, rest: bytes, k: nat)
    requires 1 <= c.cs && k < U64
  {
    all == fed + c.Frames(rest, k)
  }

  lemma SealStart(aead: Aead, key: bytes, header: bytes, cs: nat, data: bytes)
    requires 1 <= cs && |header| == NONCE_SIZE
    ensures Sealing(FileCodec(aead, key, header, cs), SealedFile(aead, key, header, cs, data), MAGIC + header, data, 0)
    ensures FileCodec(aead, key, header, cs).cs == cs
    ensures [] + (MAGIC + header) == MAGIC + header && data[0..] == data && data[..0] == []
    ensures data[|data|..] == [] && data[..|data|] == data
  {
    hide BE, Codec.Frames, Nonce;
  }

  /** What a loop hands to WriteFrame is the frame of the format. */
  lemma FrameWritten(aead: Aead, key: bytes, header: bytes, cs: nat, q: bytes, k: nat)
    requires 1 <= cs && |header| == NONCE_SIZE && k < U64
    ensures var sealed := aead.seal(key, Nonce(header, k), q);
      FileCodec(aead, key, header, cs).Frame(q, k) == BE(Uint32(|sealed|), 4) + sealed
  {
    hide BE, Nonce;
  }

  /** Writing the frame of the next chunk leaves the frames of what follows it. */
  lemma SealStep(c: Codec, all: bytes, fed: bytes, q: bytes, rest: bytes, k: nat)
    requires k < U64 && 0 < |q| <= c.cs && (rest == [] || |q| == c.cs)
    requires Sealing(c, all, fed, q + rest, k)
    ensures Sealing(c, all, fed + c.Frame(q, k), rest, NextIndex(k))
  {
    hide BE, Codec.Frames, Codec.Frame;
    c.FramesCons(q, rest, k);
    Reassociate(fed, c.Frame(q, k), c.Frames(rest, NextIndex(k)));
  }

  lemma SealStop(c: Codec, all: bytes, fed: bytes, rest: bytes, k: nat, capacity: nat)
    requires 1 <= c.cs && k < U64 && Sealing(c, all, fed, rest, k)
    ensures |fed| > capacity ==> |all| > capacity && Clip(fed, capacity) == Clip(all, capacity)
    ensures rest == [] ==> all == fed
    ensures |fed| <= capacity && rest == [] ==> Clip(all, capacity) == all
  {
    assert fed + [] == fed;
  }

  /** io.MultiWriter over the destination and the ciphertext digest: `fed` is what the digest has
      seen, which is what the destination holds as long as every write has succeeded. */
  class Tee {
    const dst: File
    var fed: bytes

    ghost predicate Valid()
      reads this, dst
    {
      dst.content == Some(fed) && |fed| <= dst.capacity
    }

    constructor (dst: File)
      requires dst.content == Some([])
      ensures this.dst == dst && fed == [] && Valid()
    {
      this.dst, fed := dst, [];
    }

    method Write(b: bytes) returns (ok: bool)
      requires Valid()
      modifies this`fed, dst
      ensures ok <==> |old(fed) + b| <= dst.capacity
      ensures ok ==> Valid() && fed == old(fed) + b
      ensures dst.content == Some(Clip(old(fed) + b, dst.capacity))
    {
      ok := dst.Write(b);
      if ok {
        fed := fed + b;
      }
    }
  }

  /** The two writes every sealing loop makes per chunk: BE32 length, then the sealed bytes. */
  method WriteFrame(mw: Tee, sealed: bytes) returns (ok: bool)
    requires mw.Valid()
    modifies mw`fed, mw.dst
    ensures var frame := BE(Uint32(|sealed|), 4) + sealed;
      && (ok <==> |old(mw.fed) + frame| <= mw.dst.capacity)
      && (ok ==> mw.Valid() && mw.fed == old(mw.fed) + frame)
      && mw.dst.content == Some(Clip(old(mw.fed) + frame, mw.dst.capacity))
  {
    hide BE;
    var lenBuf := BE(Uint32(|sealed|), 4);
    Reassociate(mw.fed, lenBuf, sealed);
    ClipAppend(mw.fed + lenBuf, sealed, mw.dst.capacity);
    ghost var before := mw.fed;
    ok := mw.Write(lenBuf);
    if ok {
      ok := mw.Write(sealed);
    } else {
      ClipPrefix(before + lenBuf, (before + lenBuf) + sealed, mw.dst.capacity);
    }
  }

  /** The body all three sealing loops share: seal the next chunk and write its frame. `rest` is
      what follows the chunk in the source. */
  method WriteChunk(mw: Tee, aead: Aead, key: bytes, header: bytes, index: nat, chunk: bytes,
                    ghost cs: nat, ghost all: bytes, ghost rest: bytes)
    returns (ok: bool)
    requires |header| == NONCE_SIZE && index < U64 && 0 < |chunk| <= cs && (rest == [] || |chunk| == cs)
    requires mw.Valid() && Sealing(FileCodec(aead, key, header, cs), all, mw.fed, chunk + rest, index)
    modifies mw`fed, mw.dst
    ensures ok ==> mw.Valid() && Sealing(FileCodec(aead, key, header, cs), all, mw.fed, rest, NextIndex(index))
    ensures !ok ==> |all| > mw.dst.capacity && mw.dst.content == Some(Clip(all, mw.dst.capacity))
  {
    hide BE, Codec.Frames, Codec.Frame, FileCodec, Uint32, Nonce, Clip, Sealing;
    ghost var c := FileCodec(aead, key, header, cs);
    CodecSize(aead, key, header, cs);
    FrameWritten(aead, key, header, cs, chunk, index);
    SealStep(c, all, mw.fed, chunk, rest, index);
    SealStop(c, all, mw.fed + c.Frame(chunk, index), rest, NextIndex(index), mw.dst.capacity);
    ok := WriteFrame(mw, aead.seal(key, Nonce(header, index), chunk));
  }

  lemma CodecSize(aead: Aead, key: bytes, header: bytes, cs: nat)
    requires |header| == NONCE_SIZE
    ensures FileCodec(aead, key, header, cs).cs == cs
  {}

  /** crypto.SealFile. A failed sealing leaves no destination behind. */
  method CryptoSealFile(src: Source, dst: File, aead: Aead, key: bytes, header: bytes, cs: nat, hash: Hash)
    returns (res: Option<SealReport>)
    requires src.Valid() && src.pos == 0 && |src.data| < I64
    requires |header| == NONCE_SIZE && 1 <= cs
    modifies src, dst
    ensures res.Some? <==> !src.broken && |SealedFile(aead, key, header, cs, src.data)| <= dst.capacity
    ensures res.Some? ==> dst.content == Some(SealedFile(aead, key, header, cs, src.data))
    ensures res.Some? ==>
        res.value == SealReport(hash(SealedFile(aead, key, header, cs, src.data)), hash(src.data), |src.data|)
    ensures res.None? ==> dst.content == None
  {
    hide BE, Codec.Frames, Codec.Frame, FileCodec, SealedFile, Uint32, Nonce, Clip, Sealing;
    ghost var c := FileCodec(aead, key, header, cs);
    var h := MAGIC + header;
    ghost var all := SealedFile(aead, key, header, cs, src.data);
    SealStart(aead, key, header, cs, src.data);
    SealStop(c, all, h, src.data, 0, dst.capacity);
    dst.Create();
    var mw := new Tee(dst);
    var ok := mw.Write(h);
    if !ok {
      dst.Remove();
      return None;
    }
    var plain := new byte[cs];
    var plainFed: bytes, index: nat, total: nat := [], 0, 0;
    while true
      invariant src.Valid() && src.pos == total && index <= total
      invariant plainFed == src.data[..total]
      invariant mw.Valid() && Sealing(c, all, mw.fed, src.data[total..], index)
      decreases |src.data| - total
    {
      var chunk, rerr := ReadChunk(src, plain);
      if |chunk| > 0 {
        plainFed := plainFed + chunk;
        total := total + |chunk|;
        ok := WriteChunk(mw, aead, key, header, index, chunk, cs, all, src.data[src.pos..]);
        if !ok {
          dst.Remove();
          return None;
        }
        index := NextIndex(index);
      }
      if rerr == EOF || rerr == UnexpectedEOF {
        break;
      }
      if rerr == Broken {
        dst.Remove();
        return None;
      }
    }
    SealStop(c, all, mw.fed, [], index, dst.capacity);
    assert plainFed == src.data && mw.fed == all;
    return Some(SealReport(hash(mw.fed), hash(plainFed), total));
  }

  /** app.SealFile. Whatever fits the disk stays behind, also when sealing fails. */
  method AppSealFile(src: Source, dst: File, aead: Aead, key: bytes, header: bytes, cs: nat, hash: Hash)
    returns (res: Option<SealReport>)
    requires src.Valid() && src.pos == 0 && |src.data| < I64
    requires |header| == NONCE_SIZE && 1 <= cs
    modifies src, dst
    ensures res.Some? <==> !src.broken && |SealedFile(aead, key, header, cs, src.data)| <= dst.capacity
    ensures res.Some? ==>
        res.value == SealReport(hash(SealedFile(aead, key, header, cs, src.data)), hash(src.data), |src.data|)
    ensures dst.content == Some(Clip(SealedFile(aead, key, header, cs, src.data), dst.capacity))
  {
    hide BE, Codec.Frames, Codec.Frame, FileCodec, SealedFile, Uint32, Nonce, Clip, Sealing;
    ghost var c := FileCodec(aead, key, header, cs);
    ghost var all := SealedFile(aead, key, header, cs, src.data);
    var h := MAGIC + header;
    SealStart(aead, key, header, cs, src.data);
    SealStop(c, all, h, src.data, 0, dst.capacity);
    dst.Create();
    var mw := new Tee(dst);
    var ok := mw.Write(h);
    if !ok {
      return None;
    }
    var buf := new byte[cs];
    var plainFed: bytes, index: nat, total: nat := [], 0, 0;
    while true
      invariant src.Valid() && src.pos == total && index <= total
      invariant plainFed == src.data[..total]
      invariant mw.Valid() && Sealing(c, all, mw.fed, src.data[total..], index)
      decreases |src.data| - total
    {
      var chunk, rerr := ReadChunk(src, buf);
      if |chunk| > 0 {
        plainFed := plainFed + chunk;
        ok := WriteChunk(mw, aead, key, header, index, chunk, cs, all, src.data[src.pos..]);
        if !ok {
          return None;
        }
        total := total + |chunk|;
        index := NextIndex(index);
      }
      if rerr == EOF || rerr == UnexpectedEOF {
        break;
      }
      if rerr == Broken {
        SealStop(c, all, mw.fed, [], index, dst.capacity);
        return None;
      }
    }
    SealStop(c, all, mw.fed, [], index, dst.capacity);
    assert plainFed == src.data && mw.fed == all;
    return Some(SealReport(hash(mw.fed), hash(plainFed), total));
  }

  /** app.sealWithProgress: the same file, and one callback per chunk with the plaintext done so far. */
  method SealWithProgress(src: Source, dst: File, aead: Aead, key: bytes, header: bytes, cs: nat, hash: Hash,
                          size: nat, report: bool)
    returns (res: Option<SealReport>, ticks: seq<Tick>)
    requires src.Valid() && src.pos == 0 && |src.data| < I64
    requires |header| == NONCE_SIZE && 1 <= cs
    modifies src, dst
    ensures res.Some? <==> !src.broken && |SealedFile(aead, key, header, cs, src.data)| <= dst.capacity
    ensures res.Some? ==>
        res.value == SealReport(hash(SealedFile(aead, key, header, cs, src.data)), hash(src.data), |src.data|)
    ensures dst.content == Some(Clip(SealedFile(aead, key, header, cs, src.data), dst.capacity))
    ensures res.Some? && report ==> TicksOf(FileCodec(aead, key, header, cs), ticks, CeilDiv(|src.data|, cs), |src.data|, size)
    ensures !report ==> ticks == []
  {
    hide BE, Codec.Frames, Codec.Frame, FileCodec, SealedFile, Uint32, Nonce, Clip, Sealing, Progress, TicksOf, CeilDiv;
    ghost var c := FileCodec(aead, key, header, cs);
    ghost var all := SealedFile(aead, key, header, cs, src.data);
    var h := MAGIC + header;
    ticks := [];
    SealStart(aead, key, header, cs, src.data);
    ProgressStart(c, report, |src.data|, size);
    SealStop(c, all, h, src.data, 0, dst.capacity);
    dst.Create();
    var mw := new Tee(dst);
    var ok := mw.Write(h);
    if !ok {
      return None, ticks;
    }
    var buf := new byte[cs];
    var plainFed: bytes, index: nat, done: nat := [], 0, 0;
    while true
      invariant src.Valid() && src.pos == done && index <= done
      invariant plainFed == src.data[..done]
      invariant mw.Valid() && Sealing(c, all, mw.fed, src.data[done..], index)
      invariant Progress(c, ticks, report, index, done, |src.data|, size) && (!report ==> ticks == [])
      decreases |src.data| - done
    {
      var chunk, rerr := ReadChunk(src, buf);
      if |chunk| > 0 {
        plainFed := plainFed + chunk;
        ok := WriteChunk(mw, aead, key, header, index, chunk, cs, all, src.data[src.pos..]);
        if !ok {
          return None, ticks;
        }
        ProgressStep(c, ticks, report, index, done, |src.data|, size);
        if report {
          ticks := ticks + [Tick(done + |chunk|, size)];
        }
        done := done + |chunk|;
        index := NextIndex(index);
      }
      if rerr == EOF || rerr == UnexpectedEOF {
        break;
      }
      if rerr == Broken {
        SealStop(c, all, mw.fed, [], index, dst.capacity);
        return None, ticks;
      }
    }
    SealStop(c, all, mw.fed, [], index, dst.capacity);
    assert plainFed == src.data && mw.fed == all;
    ProgressEnd(c, ticks, report, index, |src.data|, size);
    return Some(SealReport(hash(mw.fed), hash(plainFed), done)), ticks;
  }

  // ---------- openers ----------

  /** What the opener still has to do: `out` is released, the frames `rest` are unread. */
  ghost predicate Remaining(c: Codec, b: Bounds, whole: Opened, out: bytes, rest: bytes, i: nat)
    requires i < U64
  {
    var r := c.OpenFrames(b, rest, i);
    whole == Opened(out + r.plain, r.ok)
  }

  /** The stream ends before or inside a length prefix. */
  lemma StopsBeforeFrame(c: Codec, b: Bounds, whole: Opened, out: bytes, rest: bytes, i: nat)
    requires i < U64 && Remaining(c, b, whole, out, rest, i) && |rest| < 4
    ensures whole == Opened(out, rest == [])
  {}

  /** The length prefix is out of bounds, or says more than there is. */
  lemma StopsAtLength(c: Codec, b: Bounds, whole: Opened, out: bytes, len: bytes, rest: bytes, i: nat)
    requires i < U64 && |len| == 4 && Remaining(c, b, whole, out, len + rest, i)
    requires var n := FromBE(len); n < b.lo || n > b.hi || |rest| < n
    ensures whole == Opened(out, false)
  {
    hide FromBE;
    assert (len + rest)[..4] == len;
  }

  /** The frame does not decrypt. */
  lemma StopsAtFrame(c: Codec, b: Bounds, whole: Opened, out: bytes, len: bytes, sealed: bytes, rest: bytes, i: nat)
    requires i < U64 && |len| == 4 && Remaining(c, b, whole, out, len + (sealed + rest), i)
    requires b.lo <= |sealed| == FromBE(len) <= b.hi && c.open(sealed, i).None?
    ensures whole == Opened(out, false)
  {
    hide FromBE;
    FrontOfStream(len, sealed, rest);
  }

  /** The parser takes one more frame. */
  lemma TakesFrame(c: Codec, b: Bounds, whole: Opened, out: bytes, len: bytes, sealed: bytes, rest: bytes, i: nat, p: bytes)
    requires i < U64 && |len| == 4 && Remaining(c, b, whole, out, len + (sealed + rest), i)
    requires b.lo <= |sealed| == FromBE(len) <= b.hi && c.open(sealed, i) == Some(p)
    ensures Remaining(c, b, whole, out + p, rest, NextIndex(i))
  {
    hide FromBE;
    FrontOfStream(len, sealed, rest);
    Reassociate(out, p, c.OpenFrames(b, rest, NextIndex(i)).plain);
  }

  lemma FrontOfStream(len: bytes, sealed: bytes, rest: bytes)
    requires |len| == 4
    ensures var s := len + (sealed + rest);
      s[..4] == len && s[4..4 + |sealed|] == sealed && s[4 + |sealed|..] == rest
  {}

  lemma RemainingAll(c: Codec, b: Bounds, body: bytes)
    ensures Remaining(c, b, c.OpenFrames(b, body, 0), [], body, 0)
  {}

  lemma ReleasedTooMuch(c: Codec, b: Bounds, whole: Opened, out: bytes, rest: bytes, i: nat, capacity: nat)
    requires i < U64 && Remaining(c, b, whole, out, rest, i) && |out| > capacity
    ensures |whole.plain| > capacity && Clip(out, capacity) == Clip(whole.plain, capacity)
  {}

  lemma ClipAll(out: bytes, capacity: nat)
    requires |out| <= capacity
    ensures Clip(out, capacity) == out
  {}

  /** Magic and header nonce, or the file is not one. */
  method ReadHeader(src: Source) returns (header: Option<bytes>)
    requires src.Valid() && src.pos == 0
    modifies src
    ensures src.Valid()
    ensures header.None? <==> |src.data| < HEADER_LEN || src.data[..4] != MAGIC
    ensures header.Some? ==> |header.value| == NONCE_SIZE && src.pos == HEADER_LEN && src.data[4..HEADER_LEN] == header.value
  {
    var magicBuf, headerBuf := new byte[4], new byte[NONCE_SIZE];
    var magic, err := ReadChunk(src, magicBuf);
    assert src.data[0..] == src.data;
    if err != NoErr || magic != MAGIC {
      return None;
    }
    var h;
    h, err := ReadChunk(src, headerBuf);
    if err != NoErr {
      return None;
    }
    return Some(h);
  }

  /** crypto.OpenFile: after a failure the destination does not exist. */
  method CryptoOpenFile(src: Source, dst: File, aead: Aead, key: bytes, cs: nat) returns (ok: bool)
    requires src.Valid() && src.pos == 0 && |src.data| < I64
    modifies src, dst
    ensures var spec := OpenedFile(aead, key, cs, StrictBounds(cs), src.data);
      && (ok <==> !src.broken && spec.created && spec.result.ok && |spec.result.plain| <= dst.capacity)
      && (!spec.created ==> dst.content == old(dst.content))
      && (spec.created ==> dst.content == if ok then Some(spec.result.plain) else None)
  {
    hide FromBE, Nonce, Clip, Codec.OpenFrames, Remaining;
    ghost var b, spec := StrictBounds(cs), OpenedFile(aead, key, cs, StrictBounds(cs), src.data);
    var header := ReadHeader(src);
    if header.None? {
      return false;
    }
    dst.Create();
    ghost var c, whole, out: bytes := FileCodec(aead, key, header.value, cs), spec.result, [];
    RemainingAll(c, b, src.data[HEADER_LEN..]);
    var lenBuf := new byte[4];
    var index: nat := 0;
    while true
      invariant src.Valid() && index < U64 && lenBuf.Length == 4
      invariant Remaining(c, b, whole, out, src.data[src.pos..], index)
      invariant dst.content == Some(out) && |out| <= dst.capacity
      decreases |src.data| - src.pos
    {
      ghost var rest := src.data[src.pos..];
      var len, err := ReadChunk(src, lenBuf);
      if err == EOF {
        StopsBeforeFrame(c, b, whole, out, rest, index);
        break;
      }
      if err != NoErr {
        StopsBeforeFrame(c, b, whole, out, rest, index);
        dst.Remove();
        return false;
      }
      var slen := FromBE(len);
      if slen < OVERHEAD || slen > cs + OVERHEAD {
        StopsAtLength(c, b, whole, out, len, src.data[src.pos..], index);
        dst.Remove();
        return false;
      }
      var sealedBuf := new byte[slen];
      ghost var behind := src.data[src.pos..];
      var sealed;
      sealed, err := ReadChunk(src, sealedBuf);
      if err != NoErr {
        StopsAtLength(c, b, whole, out, len, behind, index);
        dst.Remove();
        return false;
      }
      var plain := aead.open(key, Nonce(header.value, index), sealed);
      if plain.None? {
        StopsAtFrame(c, b, whole, out, len, sealed, src.data[src.pos..], index);
        dst.Remove();
        return false;
      }
      TakesFrame(c, b, whole, out, len, sealed, src.data[src.pos..], index, plain.value);
      index := NextIndex(index);
      var wrote := dst.Write(plain.value);
      if !wrote {
        ReleasedTooMuch(c, b, whole, out + plain.value, src.data[src.pos..], index, dst.capacity);
        dst.Remove();
        return false;
      }
      out := out + plain.value;
    }
    return true;
  }

  /** app.OpenFile: a failure leaves the opened chunks behind. */
  method AppOpenFile(src: Source, dst: File, aead: Aead, key: bytes, cs: nat) returns (ok: bool)
    requires src.Valid() && src.pos == 0 && |src.data| < I64
    modifies src, dst
    ensures var spec := OpenedFile(aead, key, cs, LaxBounds(cs), src.data);
      && (ok <==> !src.broken && spec.created && spec.result.ok && |spec.result.plain| <= dst.capacity)
      && (!spec.created ==> dst.content == old(dst.content))
      && (spec.created ==> dst.content == Some(Clip(spec.result.plain, dst.capacity)))
  {
    hide FromBE, Nonce, Clip, Codec.OpenFrames, Remaining;
    ghost var b, spec := LaxBounds(cs), OpenedFile(aead, key, cs, LaxBounds(cs), src.data);
    var header := ReadHeader(src);
    if header.None? {
      return false;
    }
    dst.Create();
    ghost var c, whole, out: bytes := FileCodec(aead, key, header.value, cs), spec.result, [];
    RemainingAll(c, b, src.data[HEADER_LEN..]);
    var lenBuf := new byte[4];
    var index: nat := 0;
    while true
      invariant src.Valid() && index < U64 && lenBuf.Length == 4
      invariant Remaining(c, b, whole, out, src.data[src.pos..], index)
      invariant dst.content == Some(out) && |out| <= dst.capacity
      decreases |src.data| - src.pos
    {
      ghost var rest := src.data[src.pos..];
      ClipAll(out, dst.capacity);
      var len, err := ReadChunk(src, lenBuf);
      if err == EOF {
        StopsBeforeFrame(c, b, whole, out, rest, index);
        break;
      }
      if err != NoErr {
        StopsBeforeFrame(c, b, whole, out, rest, index);
        return false;
      }
      var slen := FromBE(len);
      if slen == 0 || slen > cs + 64 {
        StopsAtLength(c, b, whole, out, len, src.data[src.pos..], index);
        return false;
      }
      var sealedBuf := new byte[slen];
      ghost var behind := src.data[src.pos..];
      var sealed;
      sealed, err := ReadChunk(src, sealedBuf);
      if err != NoErr {
        StopsAtLength(c, b, whole, out, len, behind, index);
        return false;
      }
      var plain := aead.open(key, Nonce(header.value, index), sealed);
      if plain.None? {
        StopsAtFrame(c, b, whole, out, len, sealed, src.data[src.pos..], index);
        return false;
      }
      TakesFrame(c, b, whole, out, len, sealed, src.data[src.pos..], index, plain.value);
      index := NextIndex(index);
      var wrote := dst.Write(plain.value);
      if !wrote {
        ReleasedTooMuch(c, b, whole, out + plain.value, src.data[src.pos..], index, dst.capacity);
        return false;
      }
      out := out + plain.value;
    }
    return true;
  }
}
