/** The bytes of a DirectDrop connection: the signed 209-byte handshake, the signed 141-byte
    response, frame headers and ACKs. Parsing gives back exactly what was written, and the two
    peers end up in one session: same key, same nonces, same offset. */
module Handshake {
  import opened Bytes
  import opened Primitives
  import opened Gd01
  import opened DirectDrop

  /** "GDP1" and the version byte. */
  const PREAMBLE: bytes := [0x47, 0x44, 0x50, 0x31, 1]
  const HS_LEN: nat := 209
  const RSP_LEN: nat := 141

  datatype Hello = Hello(idPub: bytes, ephemPub: bytes, baseNonce: bytes, offset: int, fileSize: int, fileHash: bytes, chunkSize: nat)

  datatype Answer = Answer(idPub: bytes, ephemPub: bytes, accepted: int)

  /** Go's uint64(x) of an int64. */
  function ToUint64(i: int): (u: nat)
    requires -I64 <= i < I64
    ensures u < U64
  {
    if i >= 0 then i else i + U64
  }

  /** int64(binary.BigEndian.Uint64(s)). */
  function ReadInt64(s: bytes): int
    requires |s| == 8
  {
    FromBEBound(s);
    Widths();
    ToInt64(FromBE(s))
  }

  predicate HelloFits(h: Hello) {
    && |h.idPub| == 32 && |h.ephemPub| == 32 && |h.baseNonce| == NONCE_SIZE && |h.fileHash| == 32
    && -I64 <= h.offset < I64 && -I64 <= h.fileSize < I64 && h.chunkSize < U32
  }

  /** The 145 bytes the sender signs. */
  function HelloBytes(h: Hello): (s: bytes)
    requires HelloFits(h)
    ensures |s| == HS_LEN - 64
  {
    PREAMBLE + (h.idPub + (h.ephemPub + (h.baseNonce
    + (BE(ToUint64(h.offset), 8) + (BE(ToUint64(h.fileSize), 8) + (h.fileHash + BE(h.chunkSize, 4)))))))
  }

  /** What p2p.Receive reads out of the handshake. */
  function ParseHello(s: bytes): Hello
    requires |s| == HS_LEN
  {
    var p := s[5..];
    Hello(p[..32], p[32..64], p[64..88], ReadInt64(p[88..96]), ReadInt64(p[96..104]), p[104..136], FromBE(p[136..140]))
  }

  datatype Parsed<T> = Ok(value: T) | BadMagic | BadChunkSize | BadFileSize | BadSignature

  /** p2p.Receive's checks, in order. */
  function AcceptHello(v: Signer, s: bytes): Parsed<Hello>
    requires |s| == HS_LEN
  {
    var h := ParseHello(s);
    if s[..5] != PREAMBLE then BadMagic
    else if h.chunkSize < MIN_CHUNK || h.chunkSize > MAX_CHUNK then BadChunkSize
    else if h.fileSize < 0 then BadFileSize
    else if !v.verify(h.idPub, s[..HS_LEN - 64], s[HS_LEN - 64..]) then BadSignature
    else Ok(h)
  }

  /** The 77 bytes the receiver signs. */
  function AnswerBytes(a: Answer): (s: bytes)
    requires |a.idPub| == 32 && |a.ephemPub| == 32 && -I64 <= a.accepted < I64
    ensures |s| == RSP_LEN - 64
  {
    PREAMBLE + a.idPub + a.ephemPub + BE(ToUint64(a.accepted), 8)
  }

  function ParseAnswer(s: bytes): Answer
    requires |s| == RSP_LEN
  {
    Answer(s[5..37], s[37..69], ReadInt64(s[69..77]))
  }

  function AcceptAnswer(v: Signer, s: bytes): Parsed<Answer>
    requires |s| == RSP_LEN
  {
    var a := ParseAnswer(s);
    if s[..5] != PREAMBLE then BadMagic
    else if !v.verify(a.idPub, s[..RSP_LEN - 64], s[RSP_LEN - 64..]) then BadSignature
    else Ok(a)
  }

  // ---------- round trips ----------

  lemma Int64RoundTrip(i: int)
    requires -I64 <= i < I64
    ensures ReadInt64(BE(ToUint64(i), 8)) == i
  {
    Widths();
    FromBEOfBE(ToUint64(i), 8);
  }

  lemma Int64Injective(s: bytes)
    requires |s| == 8
    ensures -I64 <= ReadInt64(s) < I64 && BE(ToUint64(ReadInt64(s)), 8) == s
  {
    Widths();
    FromBEBound(s);
    BEOfFromBE(s);
  }

  /** The handshake parses to exactly the fields written, for all values in range. */
  lemma HelloRoundTrip(h: Hello, sig: bytes)
    requires HelloFits(h) && |sig| == 64
    ensures ParseHello(HelloBytes(h) + sig) == h
  {
    hide BE, FromBE, ReadInt64;
    var s := HelloBytes(h) + sig;
    var p := s[5..];
    Int64RoundTrip(h.offset);
    Int64RoundTrip(h.fileSize);
    Widths();
    FromBEOfBE(h.chunkSize, 4);
    var t6 := BE(h.chunkSize, 4);
    var t5 := h.fileHash + t6;
    var t4 := BE(ToUint64(h.fileSize), 8) + t5;
    var t3 := BE(ToUint64(h.offset), 8) + t4;
    var t2 := h.baseNonce + t3;
    var t1 := h.ephemPub + t2;
    assert p == (h.idPub + t1) + sig;
    assert p[32..] == t1 + sig && p[..32] == h.idPub;
    assert p[64..] == t2 + sig && p[32..64] == t1[..32] == h.ephemPub;
    assert p[88..] == t3 + sig && p[64..88] == t2[..24] == h.baseNonce;
    assert p[96..] == t4 + sig && p[88..96] == t3[..8] == BE(ToUint64(h.offset), 8);
    assert p[104..] == t5 + sig && p[96..104] == t4[..8] == BE(ToUint64(h.fileSize), 8);
    assert p[136..] == t6 + sig && p[104..136] == t5[..32] == h.fileHash;
    assert p[136..140] == t6;
  }

  /** Nothing else parses to these fields: every handshake with the right preamble is the encoding
      of what was read out of it. */
  lemma HelloIsCanonical(s: bytes)
    requires |s| == HS_LEN && s[..5] == PREAMBLE
    ensures HelloFits(ParseHello(s)) && HelloBytes(ParseHello(s)) == s[..HS_LEN - 64]
  {
    hide BE, FromBE, ReadInt64;
    var p := s[5..];
    Int64Injective(p[88..96]);
    Int64Injective(p[96..104]);
    Widths();
    FromBEBound(p[136..140]);
    BEOfFromBE(p[136..140]);
    assert s[..HS_LEN - 64] == s[..5] + p[..32] + p[32..64] + p[64..88] + p[88..96] + p[96..104] + p[104..136] + p[136..140];
  }

  lemma AnswerRoundTrip(a: Answer, sig: bytes)
    requires |a.idPub| == 32 && |a.ephemPub| == 32 && -I64 <= a.accepted < I64 && |sig| == 64
    ensures ParseAnswer(AnswerBytes(a) + sig) == a
  {
    hide BE, FromBE, ReadInt64;
    var s := AnswerBytes(a) + sig;
    Int64RoundTrip(a.accepted);
    assert s[5..37] == a.idPub;
    assert s[37..69] == a.ephemPub;
    assert s[69..77] == BE(ToUint64(a.accepted), 8);
  }

  lemma AnswerIsCanonical(s: bytes)
    requires |s| == RSP_LEN && s[..5] == PREAMBLE
    ensures -I64 <= ParseAnswer(s).accepted < I64 && AnswerBytes(ParseAnswer(s)) == s[..RSP_LEN - 64]
  {
    hide BE, FromBE, ReadInt64;
    Int64Injective(s[69..77]);
    assert s[..RSP_LEN - 64] == s[..5] + s[5..37] + s[37..69] + s[69..77];
  }

  /** An ACK reads back as the byte count; all ones read as -1, which no byte count does. */
  lemma AckRoundTrip(recv: nat)
    requires recv < I64
    ensures ReadInt64(BE(recv, 8)) == recv
    ensures ReadInt64([255, 255, 255, 255, 255, 255, 255, 255]) == -1
  {
    Int64RoundTrip(recv);
    Ones(8);
    Widths();
    hide BE, FromBE;
    assert [255, 255, 255, 255, 255, 255, 255, 255] == seq(8, _ => 255 as byte);
  }

  lemma {:induction false} Ones(k: nat)
    ensures FromBE(seq(k, _ => 255 as byte)) == Pow256(k) - 1
  {
    if k > 0 {
      var s := seq(k, _ => 255 as byte);
      Ones(k - 1);
      assert s[..k - 1] == seq(k - 1, _ => 255 as byte) && s[k - 1] == 255;
    }
  }

  /** A data frame's header is never the FIN header, and gives its length back. */
  lemma FrameHeaderRoundTrip(c: Codec, chunk: bytes, i: nat)
    requires c.Valid() && |chunk| <= c.cs
    ensures FromBE(BE(Uint32(|c.seal(chunk, i)|), 4)) == |c.seal(chunk, i)| != FromBE(BE(0, 4))
  {
    Widths();
    FromBEOfBE(|c.seal(chunk, i)|, 4);
    FromBEOfBE(0, 4);
  }

  // ---------- one session ----------

  /** Either peer's codec, from its own private key and the other's public key. */
  function PeerCodec(aead: Aead, dh: Dh, hash: Hash, mine: bytes, theirs: bytes, senderPub: bytes, receiverPub: bytes,
                     base: bytes, cs: nat): Option<Codec>
    requires |base| == NONCE_SIZE
  {
    var shared := dh.shared(mine, theirs);
    if shared.None? then None
    else Some(FileCodec(aead, AgreedKey(hash, shared.value, senderPub, receiverPub), base, cs))
  }

  /** Both p2p peers derive the same session key (or both fail). */
  lemma PeersDeriveOneCodec(aead: Aead, dh: Dh, hash: Hash, sender: bytes, receiver: bytes, base: bytes, cs: nat)
    requires dh.Commutes() && |base| == NONCE_SIZE
    ensures PeerCodec(aead, dh, hash, sender, dh.pub(receiver), dh.pub(sender), dh.pub(receiver), base, cs)
         == PeerCodec(aead, dh, hash, receiver, dh.pub(sender), dh.pub(sender), dh.pub(receiver), base, cs)
  {}

  /** The handshake opens exactly one session. Whatever the identities, ephemeral keys, nonce
      base, requested chunk size and resume hint: the receiver accepts the handshake and learns
      the sender's size, digest and chunk size; the sender accepts the response and learns the
      receiver's resume offset, which passes its own checks; both hold the same codec. */
  lemma HandshakeOpensOneSession(aead: Aead, dh: Dh, v: Signer, hash: Hash, src: bytes, disk: Option<bytes>,
                                 senderId: bytes, senderEphem: bytes, receiverId: bytes, receiverEphem: bytes,
                                 base: bytes, option: int, hint: int)
    requires dh.Commutes() && v.Correct() && |base| == NONCE_SIZE && |src| < I64 && hint < I64
    requires |hash(src)| == 32 && (disk.Some? ==> disk.value <= src)
    ensures var cs := ChunkSizeOf(option);
      var hello := Hello(v.pub(senderId), dh.pub(senderEphem), base, if hint < 0 then 0 else hint, |src|, hash(src), cs);
      var wire := HelloBytes(hello) + v.sign(senderId, HelloBytes(hello));
      var start := Resume(disk, |src|, cs);
      var answer := Answer(v.pub(receiverId), dh.pub(receiverEphem), start.recv);
      && AcceptHello(v, wire) == Ok(hello)
      && start.recv < I64
      && AcceptAnswer(v, AnswerBytes(answer) + v.sign(receiverId, AnswerBytes(answer))) == Ok(answer)
      && start.recv <= |src| && start.recv % cs == 0
      && PeerCodec(aead, dh, hash, senderEphem, answer.ephemPub, hello.ephemPub, answer.ephemPub, base, cs)
      == PeerCodec(aead, dh, hash, receiverEphem, hello.ephemPub, hello.ephemPub, answer.ephemPub, hello.baseNonce, hello.chunkSize)
  {
    hide HelloBytes, AnswerBytes, ParseHello, ParseAnswer, Resume;
    var cs := ChunkSizeOf(option);
    var hello := Hello(v.pub(senderId), dh.pub(senderEphem), base, if hint < 0 then 0 else hint, |src|, hash(src), cs);
    ResumeFacts(src, disk, Codec(cs, (p, i) => [], (c, i) => None));
    var answer := Answer(v.pub(receiverId), dh.pub(receiverEphem), Resume(disk, |src|, cs).recv);
    SignedHello(v, senderId, hello);
    SignedAnswer(v, receiverId, answer);
    PeersDeriveOneCodec(aead, dh, hash, senderEphem, receiverEphem, base, cs);
  }

  lemma SignedHello(v: Signer, id: bytes, h: Hello)
    requires v.Correct() && HelloFits(h) && h.idPub == v.pub(id)
    requires h.fileSize >= 0 && MIN_CHUNK <= h.chunkSize <= MAX_CHUNK
    ensures AcceptHello(v, HelloBytes(h) + v.sign(id, HelloBytes(h))) == Ok(h)
  {
    hide ParseHello;
    var body, sig := HelloBytes(h), v.sign(id, HelloBytes(h));
    var s := body + sig;
    HelloRoundTrip(h, sig);
    assert s[..HS_LEN - 64] == body && s[HS_LEN - 64..] == sig && s[..5] == body[..5] == PREAMBLE;
  }

  lemma SignedAnswer(v: Signer, id: bytes, a: Answer)
    requires v.Correct() && a.idPub == v.pub(id) && |a.ephemPub| == 32 && -I64 <= a.accepted < I64
    ensures AcceptAnswer(v, AnswerBytes(a) + v.sign(id, AnswerBytes(a))) == Ok(a)
  {
    hide ParseAnswer;
    var body, sig := AnswerBytes(a), v.sign(id, AnswerBytes(a));
    var s := body + sig;
    AnswerRoundTrip(a, sig);
    assert s[..RSP_LEN - 64] == body && s[RSP_LEN - 64..] == sig && s[..5] == body[..5] == PREAMBLE;
  }
}
