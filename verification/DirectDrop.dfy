/** DirectDrop: the stop-and-wait transfer of internal/p2p with resume, as a state machine over
    unboundedly many sessions, and what every run of it keeps.

    A session is a sender, a receiver with its file on disk, and the two directions of the
    connection. Either end may die, a write may be torn, the connection may go at any moment;
    then another session may start on what is on disk, with another chunk size. */
module DirectDrop {
  import opened Bytes
  import opened Primitives
  import opened Files
  import opened Gd01

  const DEFAULT_CHUNK: nat := 0x10_0000
  const MIN_CHUNK: nat := 0x400
  const MAX_CHUNK: nat := 0x80_0000

  /** chunkSizeOf: the default for nothing, otherwise clamped. */
  function ChunkSizeOf(o: int): (cs: nat)
    ensures MIN_CHUNK <= cs <= MAX_CHUNK
  {
    if o <= 0 then DEFAULT_CHUNK else if o < MIN_CHUNK then MIN_CHUNK else if o > MAX_CHUNK then MAX_CHUNK else o
  }

  /** How an end of the connection stopped. */
  datatype Verdict =
    | Nil                                   // returned nil
    | Interrupted                           // context done, read or write error, process gone
    | BadOffset | Unaligned                 // sender, on the handshake response
    | Rejected | AckMismatch                // sender, on an ACK
    | Oversize | Undecryptable | Overlong   // receiver, on a frame
    | HashMismatch                          // either

  /** What travels back to the sender. A NACK is an ACK of -1. */
  datatype Reply = Rsp(accepted: nat) | Ack(total: int) | Fin(code: nat, recv: nat)

  /** What travels to the receiver: a sealed chunk, or the empty string for FIN. */
  type Frame = bytes

  datatype SenderPc = AwaitRsp | Ready | AwaitAck(n: nat) | Closing | AwaitFin | SenderOver(verdict: Verdict)

  datatype Sender = Sender(pc: SenderPc, sent: nat, idx: nat)

  datatype ReceiverPc = Receiving | ReceiverOver(verdict: Verdict)

  /** `fed` is what the running hash has seen. */
  datatype Receiver = Receiver(pc: ReceiverPc, disk: bytes, recv: nat, idx: nat, fed: bytes)

  /** What the signed handshake tells the receiver. */
  datatype Announced = Announced(fileSize: nat, fileHash: bytes)

  function Floor(a: nat, cs: nat): nat
    requires cs > 0
  {
    a - a % cs
  }

  /** The chunk index of an offset: uint64(accepted / cs). */
  function IndexOf(at: nat, cs: nat): (i: nat)
    requires cs > 0
    ensures i < U64
  {
    at / cs % U64
  }

  // ---------- the receiver ----------

  /** The resume offset: the last whole chunk of what is on disk, nothing if that is too long. */
  function Accepted(disk: Option<bytes>, fileSize: nat, cs: nat): nat
    requires cs > 0
  {
    if disk.None? || |disk.value| > fileSize then 0 else Floor(|disk.value|, cs)
  }

  /** Open the destination, cut a torn tail (only if something is kept), re-hash the kept part. */
  function Resume(disk: Option<bytes>, fileSize: nat, cs: nat): Receiver
    requires cs > 0
  {
    var accepted := Accepted(disk, fileSize, cs);
    var found := if disk.None? then [] else disk.value;
    var kept := if accepted > 0 then found[..accepted] else found;
    Receiver(Receiving, kept, accepted, IndexOf(accepted, cs), kept[..accepted])
  }

  /** One frame arrives. `torn` says that only so many bytes of the plaintext reach the disk
      before the write fails. */
  function OnFrame(c: Codec, hash: Hash, a: Announced, r: Receiver, f: Frame, torn: Option<nat>): (Receiver, seq<Reply>)
    requires r.recv <= |r.disk| && r.idx < U64
  {
    if |f| == 0 then
      if r.recv != a.fileSize || hash(r.fed) != a.fileHash then
        (r.(pc := ReceiverOver(HashMismatch)), [Fin(1, r.recv)])
      else
        (r.(pc := ReceiverOver(Nil)), [Fin(0, r.recv)])
    else if |f| > c.cs + OVERHEAD + 16 then
      (r.(pc := ReceiverOver(Oversize)), [])
    else
      match c.open(f, r.idx)
      case None => (r.(pc := ReceiverOver(Undecryptable)), [Ack(-1)])
      case Some(p) =>
        if torn.Some? && torn.value < |p| then
          (r.(pc := ReceiverOver(Interrupted), disk := Overlay(r.disk, r.recv, p[..torn.value])), [])
        else
          var r' := r.(disk := Overlay(r.disk, r.recv, p), fed := r.fed + p, recv := r.recv + |p|);
          if r'.recv > a.fileSize then (r'.(pc := ReceiverOver(Overlong)), [Fin(1, r'.recv)])
          else (r'.(idx := NextIndex(r.idx)), [Ack(r'.recv)])
  }

  // ---------- the sender ----------

  function NextLen(src: bytes, cs: nat, sent: nat): int { Min(cs, |src| - sent) }

  /** The top of the loop (or the break out of it): read a chunk and put a frame on the wire. */
  function SenderReads(src: bytes, c: Codec, s: Sender): (Sender, Frame)
    requires s.pc.Ready? || s.pc.Closing?
    requires s.sent <= |src|
  {
    var n := NextLen(src, c.cs, s.sent);
    if s.pc.Closing? || n == 0 then (s.(pc := AwaitFin), [])
    else (s.(pc := AwaitAck(n)), c.seal(src[s.sent..s.sent + n], s.idx))
  }

  /** One reply arrives. A reply of another kind than the one awaited does not parse as it: it is
      counted as a mismatch. */
  function OnReply(src: bytes, c: Codec, s: Sender, r: Reply): Sender
    requires c.cs > 0 && s.idx < U64
  {
    match s.pc
    case AwaitRsp =>
      if !r.Rsp? || r.accepted > |src| then s.(pc := SenderOver(BadOffset))
      else if r.accepted % c.cs != 0 then s.(pc := SenderOver(Unaligned))
      else Sender(Ready, r.accepted, IndexOf(r.accepted, c.cs))
    case AwaitAck(n) =>
      if r == Ack(-1) then s.(pc := SenderOver(Rejected))
      else if r != Ack(s.sent + n) then s.(pc := SenderOver(AckMismatch))
      else if n < c.cs then s.(pc := Closing, sent := s.sent + n)
      else Sender(Ready, s.sent + n, NextIndex(s.idx))
    case AwaitFin =>
      if !r.Fin? || r.code != 0 then s.(pc := SenderOver(HashMismatch)) else s.(pc := SenderOver(Nil))
    case _ => s
  }

  // ---------- the whole system ----------

  /** `start` and `frames` are history: the accepted offset and the data frames sent so far. */
  datatype Session = Session(codec: Codec, sender: Sender, receiver: Receiver,
                             toReceiver: seq<Frame>, toSender: seq<Reply>, start: nat, frames: nat)

  /** `disk` is the destination between sessions; `acked` is history: the highest offset any
      sender has had ACKed. */
  datatype State = State(disk: Option<bytes>, session: Option<Session>, acked: nat)

  datatype Setup = Setup(src: bytes, hash: Hash)

  datatype Event =
    | Start(chunkOption: int, codec: Codec)  // the handshake reaches the receiver, which resumes and answers
    | TornResume                             // the receiver opens its file and dies before anything else
    | SenderStep                             // the sender puts the next frame on the wire
    | SenderHears                            // the sender takes the next reply off the wire
    | ReceiverHears(torn: Option<nat>)       // the receiver takes the next frame off the wire
    | SenderDies | ReceiverDies
    | Close                                  // the connection is gone, both ends with it

  /** A session uses the clamped chunk size and a working primitive. */
  ghost predicate Legal(e: Event) {
    e.Start? ==> e.codec.Valid() && e.codec.cs == ChunkSizeOf(e.chunkOption)
  }

  /** The destination file as it is now. */
  function Disk(s: State): Option<bytes> {
    if s.session.Some? then Some(s.session.value.receiver.disk) else s.disk
  }

  /** One event; an event that is not possible now changes nothing. */
  function Step(u: Setup, s: State, e: Event): State
    requires s.session.Some? ==> SessionShape(u, s.session.value)
    requires e.Start? ==> e.codec.cs > 0
  {
    match (s.session, e)
    case (None, Start(o, codec)) =>
      var r := Resume(s.disk, |u.src|, codec.cs);
      s.(session := Some(Session(codec, Sender(AwaitRsp, 0, 0), r, [], [Rsp(r.recv)], r.recv, 0)))
    case (None, TornResume) =>
      s.(disk := if s.disk.None? then Some([]) else s.disk)
    case (Some(x), SenderStep) =>
      if x.sender.pc.Ready? || x.sender.pc.Closing? then
        var (t, f) := SenderReads(u.src, x.codec, x.sender);
        s.(session := Some(x.(sender := t, toReceiver := x.toReceiver + [f], frames := if f == [] then x.frames else x.frames + 1)))
      else s
    case (Some(x), SenderHears) =>
      if !x.sender.pc.SenderOver? && !x.sender.pc.Ready? && !x.sender.pc.Closing? && x.toSender != [] then
        var t := OnReply(u.src, x.codec, x.sender, x.toSender[0]);
        State(s.disk, Some(x.(sender := t, toSender := x.toSender[1..])),
              if x.sender.pc.AwaitAck? && t.sent > s.acked then t.sent else s.acked)
      else s
    case (Some(x), ReceiverHears(torn)) =>
      if x.receiver.pc.Receiving? && x.toReceiver != [] then
        var a := Announced(|u.src|, u.hash(u.src));
        var (r, replies) := OnFrame(x.codec, u.hash, a, x.receiver, x.toReceiver[0], torn);
        s.(session := Some(x.(receiver := r, toReceiver := x.toReceiver[1..], toSender := x.toSender + replies)))
      else s
    case (Some(x), SenderDies) =>
      if x.sender.pc.SenderOver? then s
      else s.(session := Some(x.(sender := x.sender.(pc := SenderOver(Interrupted)))))
    case (Some(x), ReceiverDies) =>
      if x.receiver.pc.ReceiverOver? then s
      else s.(session := Some(x.(receiver := x.receiver.(pc := ReceiverOver(Interrupted)))))
    case (Some(x), Close) =>
      State(Some(x.receiver.disk), None, s.acked)
    case _ => s
  }

  /** What makes the steps defined. */
  ghost predicate SessionShape(u: Setup, x: Session) {
    && x.codec.cs > 0
    && x.sender.idx < U64 && x.sender.sent <= |u.src|
    && x.receiver.recv <= |x.receiver.disk| && x.receiver.idx < U64
  }

  // ---------- the invariant ----------

  /** Chunk `idx` of the source as it goes over the wire. */
  function Genuine(u: Setup, x: Session): Frame
    requires x.receiver.recv <= |u.src|
  {
    x.codec.seal(u.src[x.receiver.recv..x.receiver.recv + NextLen(u.src, x.codec.cs, x.receiver.recv)], x.receiver.idx)
  }

  /** `at` is where chunk `idx` starts. */
  predicate At(src: bytes, c: Codec, at: nat, idx: nat) {
    at == c.Full(idx) <= |src|
  }

  /** The receiver's side: a prefix of the source on disk, the hash fed with what was counted. */
  ghost predicate ReceiverInv(u: Setup, x: Session) {
    var r := x.receiver;
    && r.disk <= u.src && r.recv <= |r.disk|
    && r.fed == u.src[..r.recv]
    && r.idx < U64
    && (r.pc.Receiving? && r.recv < |u.src| ==> At(u.src, x.codec, r.recv, r.idx))
    && (r.pc.Receiving? || r.pc == ReceiverOver(Nil) || r.pc == ReceiverOver(Interrupted))
    && (r.pc == ReceiverOver(Nil) ==> r.recv == |u.src|)
  }

  /** The sender's side, and the data frames it still owes. */
  ghost predicate SenderInv(u: Setup, x: Session)
    requires x.codec.cs > 0
  {
    var s, c := x.sender, x.codec;
    && s.sent <= |u.src| && s.idx < U64
    && x.start <= |u.src|
    && match s.pc
       case AwaitRsp => x.frames == 0
       case Ready =>
         && At(u.src, c, s.sent, s.idx) && x.start <= s.sent
         && x.frames + c.ChunkCount(|u.src| - s.sent) == c.ChunkCount(|u.src| - x.start)
       case AwaitAck(n) =>
         && At(u.src, c, s.sent, s.idx) && n == NextLen(u.src, c.cs, s.sent) > 0 && x.start <= s.sent
         && x.frames + c.ChunkCount(|u.src| - s.sent - n) == c.ChunkCount(|u.src| - x.start)
       case SenderOver(v) =>
         && (v == Nil || v == Interrupted)
         && (v == Nil ==> x.frames == c.ChunkCount(|u.src| - x.start))
       case _ => s.sent == |u.src| && x.frames == c.ChunkCount(|u.src| - x.start)
  }

  /** What is on the wire, as long as the end it goes to is still there. */
  ghost predicate WireInv(u: Setup, x: Session)
    requires x.receiver.recv <= |u.src| && x.sender.idx < U64 && x.codec.cs > 0
  {
    var s, r := x.sender, x.receiver;
    && (r.pc.Receiving? ==>
          match s.pc
          case AwaitRsp =>
            x.toReceiver == [] && x.toSender == [Rsp(x.start)] && r.recv == x.start && r.idx == IndexOf(x.start, x.codec.cs)
          case Ready => x.toReceiver == [] && x.toSender == [] && r.recv == s.sent && r.idx == s.idx
          case AwaitAck(n) =>
            || (x.toReceiver == [Genuine(u, x)] && x.toSender == [] && r.recv == s.sent && r.idx == s.idx)
            || (x.toReceiver == [] && x.toSender == [Ack(s.sent + n)] && r.recv == s.sent + n && r.idx == NextIndex(s.idx))
          case Closing => x.toReceiver == [] && x.toSender == [] && r.recv == |u.src|
          case AwaitFin => x.toReceiver == [[]] && x.toSender == [] && r.recv == |u.src|
          case SenderOver(v) =>
            && v == Interrupted
            && (|| x.toReceiver == []
                || (x.toReceiver == [[]] && r.recv == |u.src|)
                || (x.toReceiver == [Genuine(u, x)] && r.recv < |u.src|)))
    && (r.pc == ReceiverOver(Nil) ==>
          || (s.pc.AwaitFin? && |x.toSender| == 1 && x.toSender[0].Fin? && x.toSender[0].code == 0)
          || s.pc.SenderOver?)
    && (r.pc == ReceiverOver(Interrupted) ==>
          match s.pc
          case AwaitRsp => x.toSender == [] || x.toSender == [Rsp(x.start)]
          case AwaitAck(n) => x.toSender == [] || (x.toSender == [Ack(s.sent + n)] && s.sent + n <= r.recv)
          case SenderOver(v) => v == Interrupted
          case _ => x.toSender == [])
  }

  ghost predicate SessionInv(u: Setup, x: Session) {
    && x.codec.Valid() && x.codec.cs <= MAX_CHUNK
    && x.start % x.codec.cs == 0
    && ReceiverInv(u, x) && SenderInv(u, x) && WireInv(u, x)
  }

  ghost predicate Inv(u: Setup, s: State) {
    && |u.src| < I64
    && (s.disk.Some? && s.session.None? ==> s.disk.value <= u.src)
    && (s.session.Some? ==> SessionInv(u, s.session.value))
  }

  // ---------- arithmetic of resume points ----------

  lemma AlignedIndex(at: nat, c: Codec)
    requires c.cs > 0 && at % c.cs == 0 && at < U64
    ensures at == c.Full(IndexOf(at, c.cs))
  {
    var q := at / c.cs;
    assert at == q * c.cs;
    Gap0(q, c.cs);
    c.ClosedForms(0, q);
  }

  /** A resume point is the start of a chunk. */
  lemma FloorFacts(a: nat, cs: nat)
    requires cs > 0
    ensures Floor(a, cs) % cs == 0
    ensures Floor(a, cs) <= a < Floor(a, cs) + cs
  {
    FloorIsMultiple(a, cs);
    MultipleLeavesNothing(a / cs, cs);
  }

  lemma FloorIsMultiple(a: nat, cs: nat)
    requires cs > 0
    ensures Floor(a, cs) == (a / cs) * cs <= a < Floor(a, cs) + cs
  {}

  lemma MultipleLeavesNothing(q: nat, cs: nat)
    requires cs > 0
    ensures (q * cs) % cs == 0
  {
    DivUnique(q * cs, cs, q, 0);
    var x := q * cs;
    assert x == (x / cs) * cs + x % cs;
  }

  lemma Gap0(q: nat, d: nat)
    requires d > 0
    ensures q * d >= q
  {
    assert q * d == q * (d - 1) + q;
  }

  lemma NextChunk(c: Codec, n: nat)
    requires c.cs > 0 && n > 0
    ensures c.ChunkCount(n) == 1 + c.ChunkCount(n - Min(c.cs, n))
  {}

  lemma FullGrows(c: Codec, k: nat)
    requires c.cs > 0
    ensures c.Full(k) >= k
  {}

  // ---------- preservation ----------

  /** Resuming on a prefix of the source keeps a prefix, cut at the start of a chunk. */
  lemma ResumeFacts(src: bytes, disk: Option<bytes>, c: Codec)
    requires c.cs > 0 && |src| < I64 && (disk.Some? ==> disk.value <= src)
    ensures var r := Resume(disk, |src|, c.cs);
      && r.pc.Receiving? && r.disk <= src && r.recv <= |r.disk| && r.fed == src[..r.recv]
      && r.idx < U64 && At(src, c, r.recv, r.idx) && r.recv % c.cs == 0
      && r.recv == (if disk.Some? then Floor(|disk.value|, c.cs) else 0)
  {
    FloorFacts(if disk.Some? then |disk.value| else 0, c.cs);
    AlignedIndex(Accepted(disk, |src|, c.cs), c);
    hide Floor, IndexOf, Codec.Full;
  }

  lemma StartKeepsInv(u: Setup, s: State, e: Event)
    requires Inv(u, s) && s.session.None? && e.Start? && Legal(e)
    ensures Inv(u, Step(u, s, e))
  {
    ResumeFacts(u.src, s.disk, e.codec);
    var r := Resume(s.disk, |u.src|, e.codec.cs);
    assert r.idx == IndexOf(r.recv, e.codec.cs);
    hide Resume, IndexOf;
  }

  lemma IndexBelow(c: Codec, at: nat, idx: nat, src: bytes)
    requires c.cs > 0 && At(src, c, at, idx) && |src| < I64
    ensures idx + 1 < U64 && NextIndex(idx) == idx + 1
  {
    FullGrows(c, idx);
  }

  lemma SenderStepKeepsInv(u: Setup, s: State)
    requires Inv(u, s) && s.session.Some?
    ensures Inv(u, Step(u, s, SenderStep))
  {
    hide IndexOf, Codec.Full, Codec.Frames, Overlay;
    var x := s.session.value;
    if x.sender.pc.Ready? && x.sender.sent < |u.src| {
      NextChunk(x.codec, |u.src| - x.sender.sent);
    }
  }

  lemma SenderHearsKeepsInv(u: Setup, s: State)
    requires Inv(u, s) && s.session.Some?
    ensures Inv(u, Step(u, s, SenderHears))
  {
    hide IndexOf;
    var x := s.session.value;
    var c, t := x.codec, x.sender;
    if x.toSender != [] {
      match t.pc
      case AwaitRsp =>
        AlignedIndex(x.start, c);
      case AwaitAck(n) =>
        IndexBelow(c, t.sent, t.idx, u.src);
      case _ =>
    }
  }

  /** Writing the right bytes of the source over a prefix of it leaves a prefix. */
  lemma OverlayKeepsPrefix(src: bytes, file: bytes, at: nat, p: bytes)
    requires file <= src && at <= |file| && at + |p| <= |src| && p == src[at..at + |p|]
    ensures Overlay(file, at, p) <= src
    ensures |Overlay(file, at, p)| == if at + |p| <= |file| then |file| else at + |p|
  {
    var r := Overlay(file, at, p);
    forall i | 0 <= i < |r|
      ensures r[i] == src[i]
    {}
  }

  /** What the receiver makes of a frame of an honest sender: FIN after the last byte is verified,
      and a data frame opens to the next piece of the source. */
  lemma FrameArrives(u: Setup, x: Session, torn: Option<nat>)
    requires SessionInv(u, x) && |u.src| < I64 && x.receiver.pc.Receiving? && x.toReceiver != []
    ensures var r, f := x.receiver, x.toReceiver[0];
      var out := OnFrame(x.codec, u.hash, Announced(|u.src|, u.hash(u.src)), r, f, torn);
      if f == [] then r.recv == |u.src| && out == (r.(pc := ReceiverOver(Nil)), [Fin(0, r.recv)])
      else
        var n := NextLen(u.src, x.codec.cs, r.recv);
        var p := u.src[r.recv..r.recv + n];
        && r.recv < |u.src| && f == Genuine(u, x)
        && out ==
             if torn.Some? && torn.value < n then (r.(pc := ReceiverOver(Interrupted), disk := Overlay(r.disk, r.recv, p[..torn.value])), [])
             else (r.(disk := Overlay(r.disk, r.recv, p), fed := r.fed + p, recv := r.recv + n, idx := NextIndex(r.idx)), [Ack(r.recv + n)])
  {
    hide IndexOf, Overlay, Codec.ChunkCount, Codec.Frames, Codec.Full;
    var r := x.receiver;
    if x.toReceiver[0] == [] {
      assert r.fed == u.src;
    } else {
      var p := u.src[r.recv..r.recv + NextLen(u.src, x.codec.cs, r.recv)];
      assert x.codec.open(x.codec.seal(p, r.idx), r.idx) == Some(p);
    }
  }

  lemma ReceiverHearsKeepsInv(u: Setup, s: State, torn: Option<nat>)
    requires Inv(u, s) && s.session.Some?
    ensures Inv(u, Step(u, s, ReceiverHears(torn)))
  {
    hide OnFrame, IndexOf, Overlay, Codec.ChunkCount, Codec.Frames, Codec.Full, SenderInv, SessionInv;
    var x := s.session.value;
    if x.receiver.pc.Receiving? && x.toReceiver != [] {
      FrameArrives(u, x, torn);
      if x.toReceiver[0] == [] {
        FinKeepsInv(u, x);
      } else if torn.Some? && torn.value < NextLen(u.src, x.codec.cs, x.receiver.recv) {
        TornWriteKeepsInv(u, x, torn.value);
      } else {
        WholeWriteKeepsInv(u, x);
      }
    }
  }

  lemma FinKeepsInv(u: Setup, x: Session)
    requires SessionInv(u, x) && x.receiver.pc.Receiving? && x.toReceiver != [] && x.toReceiver[0] == []
    ensures SessionInv(u, x.(receiver := x.receiver.(pc := ReceiverOver(Nil)), toReceiver := x.toReceiver[1..],
                             toSender := x.toSender + [Fin(0, x.receiver.recv)]))
  {
    hide IndexOf, Codec.ChunkCount, Codec.Frames, Codec.Full;
  }

  lemma TornWriteKeepsInv(u: Setup, x: Session, k: nat)
    requires SessionInv(u, x) && x.receiver.pc.Receiving? && x.toReceiver != [] && x.toReceiver[0] == Genuine(u, x) != []
    requires var n := NextLen(u.src, x.codec.cs, x.receiver.recv); k < n
    ensures var r := x.receiver;
      var p := u.src[r.recv..r.recv + NextLen(u.src, x.codec.cs, r.recv)];
      SessionInv(u, x.(receiver := r.(pc := ReceiverOver(Interrupted), disk := Overlay(r.disk, r.recv, p[..k])),
                       toReceiver := x.toReceiver[1..], toSender := x.toSender + []))
  {
    hide IndexOf, Overlay, Codec.ChunkCount, Codec.Frames, Codec.Full;
    var r := x.receiver;
    var p := u.src[r.recv..r.recv + NextLen(u.src, x.codec.cs, r.recv)];
    assert p[..k] == u.src[r.recv..r.recv + k];
    OverlayKeepsPrefix(u.src, r.disk, r.recv, p[..k]);
    assert x.toSender + [] == x.toSender;
  }

  /** The session after a whole chunk has been written and ACKed. */
  function Written(u: Setup, x: Session): Session
    requires x.receiver.recv < |u.src| && x.codec.cs > 0 && x.receiver.recv <= |x.receiver.disk|
    requires x.receiver.idx < U64 && x.toReceiver != []
  {
    var r, n := x.receiver, NextLen(u.src, x.codec.cs, x.receiver.recv);
    var p := u.src[r.recv..r.recv + n];
    x.(receiver := r.(disk := Overlay(r.disk, r.recv, p), fed := r.fed + p, recv := r.recv + n, idx := NextIndex(r.idx)),
       toReceiver := x.toReceiver[1..], toSender := x.toSender + [Ack(r.recv + n)])
  }

  lemma WholeWriteKeepsInv(u: Setup, x: Session)
    requires SessionInv(u, x) && |u.src| < I64 && x.receiver.recv < |u.src|
    requires x.receiver.pc.Receiving? && x.toReceiver != [] && x.toReceiver[0] == Genuine(u, x) != []
    ensures SessionInv(u, Written(u, x))
  {
    WrittenReceiver(u, x);
    WrittenWire(u, x);
    hide ReceiverInv, WireInv, Codec.ChunkCount, Codec.Full;
  }

  lemma WrittenReceiver(u: Setup, x: Session)
    requires ReceiverInv(u, x) && |u.src| < I64 && x.receiver.recv < |u.src| && x.codec.cs > 0
    requires x.receiver.pc.Receiving? && x.toReceiver != []
    ensures ReceiverInv(u, Written(u, x))
  {
    var r, n := x.receiver, NextLen(u.src, x.codec.cs, x.receiver.recv);
    var p := u.src[r.recv..r.recv + n];
    OverlayKeepsPrefix(u.src, r.disk, r.recv, p);
    IndexBelow(x.codec, r.recv, r.idx, u.src);
    assert r.fed + p == u.src[..r.recv + n];
    if n == x.codec.cs {
      NextStart(u.src, x.codec, r.recv, r.idx);
    }
    hide IndexOf, Overlay, Codec.Full, At;
  }

  lemma WrittenWire(u: Setup, x: Session)
    requires SessionInv(u, x) && |u.src| < I64 && x.receiver.recv < |u.src|
    requires x.receiver.pc.Receiving? && x.toReceiver != [] && x.toReceiver[0] == Genuine(u, x) != []
    ensures WireInv(u, Written(u, x))
  {
    hide IndexOf, Overlay, Codec.ChunkCount, Codec.Frames, Codec.Full, At;
  }

  lemma NextStart(src: bytes, c: Codec, at: nat, idx: nat)
    requires At(src, c, at, idx) && at + c.cs <= |src|
    ensures At(src, c, at + c.cs, idx + 1)
  {}

  /** Between sessions, and when an end dies or the connection goes. */
  lemma QuietStepKeepsInv(u: Setup, s: State, e: Event)
    requires Inv(u, s)
    requires if s.session.None? then !e.Start? else e.Start? || e.TornResume? || e.SenderDies? || e.ReceiverDies? || e.Close?
    requires e.Start? ==> e.codec.cs > 0
    ensures Inv(u, Step(u, s, e))
  {
    hide IndexOf, Codec.Full, Codec.ChunkCount, Codec.Frames, OnFrame, OnReply, SenderReads, Overlay, Resume;
  }

  lemma StepKeepsInv(u: Setup, s: State, e: Event)
    requires Inv(u, s) && Legal(e)
    ensures Inv(u, Step(u, s, e))
  {
    hide Step, SessionInv;
    match (s.session, e)
    case (None, Start(_, _)) => StartKeepsInv(u, s, e);
    case (Some(_), SenderStep) => SenderStepKeepsInv(u, s);
    case (Some(_), SenderHears) => SenderHearsKeepsInv(u, s);
    case (Some(_), ReceiverHears(torn)) => ReceiverHearsKeepsInv(u, s, torn);
    case _ => QuietStepKeepsInv(u, s, e);
  }

  // ---------- runs ----------

  ghost predicate AllLegal(es: seq<Event>) { forall i :: 0 <= i < |es| ==> Legal(es[i]) }

  /** The state after a run: the invariant holds all along, whatever happens in whatever order. */
  ghost function Run(u: Setup, s: State, es: seq<Event>): (t: State)
    requires Inv(u, s) && AllLegal(es)
    ensures Inv(u, t)
    decreases |es|
  {
    if es == [] then s
    else
      StepKeepsInv(u, s, es[0]);
      Run(u, Step(u, s, es[0]), es[1..])
  }

  /** Before anything has happened: nothing at the destination, or a prefix of the source. */
  function Initial(disk: Option<bytes>): State { State(disk, None, 0) }

  ghost predicate GoodStart(u: Setup, disk: Option<bytes>) {
    |u.src| < I64 && (disk.Some? ==> disk.value <= u.src)
  }

  /** After any number of sessions, with any chunk sizes, interrupted anywhere: the destination
      is absent or a prefix of the source; Receive has returned nil only on the whole source; Send
      has returned nil only after the receiver had verified; and between honest peers no protocol
      error ever occurs. */
  lemma RunsAreSafe(u: Setup, disk: Option<bytes>, es: seq<Event>)
    requires GoodStart(u, disk) && AllLegal(es)
    ensures var s := Run(u, Initial(disk), es);
      && (Disk(s).Some? ==> Disk(s).value <= u.src)
      && (s.session.Some? ==>
            var x := s.session.value;
            && (x.receiver.pc == ReceiverOver(Nil) ==> x.receiver.disk == u.src)
            && (x.sender.pc == SenderOver(Nil) ==> x.receiver.pc == ReceiverOver(Nil))
            && (x.receiver.pc.ReceiverOver? ==> x.receiver.pc.verdict == Nil || x.receiver.pc.verdict == Interrupted)
            && (x.sender.pc.SenderOver? ==> x.sender.pc.verdict == Nil || x.sender.pc.verdict == Interrupted))
  {
    var s := Run(u, Initial(disk), es);
    if s.session.Some? && s.session.value.receiver.pc == ReceiverOver(Nil) {
      var d := s.session.value.receiver.disk;
      assert |u.src| <= |d| && d <= u.src;
    }
  }

  // ---------- a fixed chunk size: nothing ACKed is sent again ----------

  ghost predicate FixedLegal(es: seq<Event>, cs: nat) {
    forall i :: 0 <= i < |es| && es[i].Start? ==> es[i].codec.cs == cs
  }

  ghost predicate FixedInv(u: Setup, cs: nat, s: State)
    requires cs > 0
  {
    var low := Floor(s.acked, cs);
    && s.acked <= |u.src|
    && low <= (if Disk(s).Some? then |Disk(s).value| else 0)
    && (s.session.Some? ==>
          var x := s.session.value;
          && x.codec.cs == cs
          && match x.sender.pc
             case AwaitRsp => low <= x.start
             case SenderOver(_) => true
             case _ => low <= x.sender.sent)
  }

  lemma FloorMono(a: nat, b: nat, cs: nat)
    requires cs > 0 && Floor(a, cs) <= b
    ensures Floor(a, cs) <= Floor(b, cs)
  {
    FloorIsMultiple(a, cs);
    FloorIsMultiple(b, cs);
    MultiplesInOrder(a / cs, b / cs, b, cs);
  }

  lemma MultiplesInOrder(q: nat, r: nat, b: nat, cs: nat)
    requires cs > 0 && q * cs <= b < r * cs + cs
    ensures q * cs <= r * cs
  {
    if r < q {
      Gap(r, q, cs);
    }
  }

  lemma StepKeepsFixedInv(u: Setup, cs: nat, s: State, e: Event)
    requires cs > 0 && Inv(u, s) && FixedInv(u, cs, s) && Legal(e) && (e.Start? ==> e.codec.cs == cs)
    ensures FixedInv(u, cs, Step(u, s, e))
  {
    hide IndexOf, Codec.Full, Codec.ChunkCount, Codec.Frames, OnFrame, Overlay, Floor;
    FloorFacts(s.acked, cs);
    StepKeepsInv(u, s, e);
    if s.session.None? {
      if e.Start? {
        ResumeFacts(u.src, s.disk, e.codec);
        FloorMono(s.acked, if s.disk.Some? then |s.disk.value| else 0, cs);
        hide Resume;
      }
    } else {
      var x := s.session.value;
      if e.SenderHears? && x.sender.pc.AwaitAck? && x.toSender != [] {
        FloorFacts(x.sender.sent + x.sender.pc.n, cs);
      } else if e.ReceiverHears? && x.receiver.pc.Receiving? && x.toReceiver != [] {
        DiskNeverShrinks(u, s, e.torn);
      }
    }
  }

  lemma DiskNeverShrinks(u: Setup, s: State, torn: Option<nat>)
    requires Inv(u, s) && s.session.Some?
    ensures Step(u, s, ReceiverHears(torn)).session.Some?
    ensures |s.session.value.receiver.disk| <= |Step(u, s, ReceiverHears(torn)).session.value.receiver.disk|
  {}

  ghost predicate FixedRun(u: Setup, cs: nat, es: seq<Event>) {
    cs > 0 && AllLegal(es) && FixedLegal(es, cs)
  }

  lemma {:induction false} RunKeepsFixedInv(u: Setup, cs: nat, s: State, es: seq<Event>)
    requires FixedRun(u, cs, es) && Inv(u, s) && FixedInv(u, cs, s)
    ensures FixedInv(u, cs, Run(u, s, es))
    decreases |es|
  {
    if es != [] {
      StepKeepsInv(u, s, es[0]);
      StepKeepsFixedInv(u, cs, s, es[0]);
      RunKeepsFixedInv(u, cs, Step(u, s, es[0]), es[1..]);
    }
  }

  /** With one chunk size for all sessions, a chunk whose last byte has been ACKed once is never
      sent again, except a short last chunk. */
  lemma AckedChunksAreNotResent(u: Setup, cs: nat, disk: Option<bytes>, es: seq<Event>)
    requires GoodStart(u, disk) && FixedRun(u, cs, es)
    ensures var s := Run(u, Initial(disk), es);
      s.session.Some? && s.session.value.sender.pc.Ready? ==>
        var sent, n := s.session.value.sender.sent, NextLen(u.src, cs, s.session.value.sender.sent);
        n > 0 && sent + n <= s.acked ==> n < cs && sent + n == |u.src|
  {
    var s := Run(u, Initial(disk), es);
    FloorFacts(0, cs);
    RunKeepsFixedInv(u, cs, Initial(disk), es);
    FloorFacts(s.acked, cs);
  }

  // ---------- a fault-free session completes ----------

  /** Both ends are up, or have returned nil. */
  ghost predicate Alive(s: State) {
    && s.session.Some?
    && (var x := s.session.value;
        && (x.sender.pc.SenderOver? ==> x.sender.pc.verdict == Nil)
        && (x.receiver.pc.ReceiverOver? ==> x.receiver.pc.verdict == Nil))
  }

  ghost predicate Finished(s: State) {
    s.session.Some? && s.session.value.sender.pc == SenderOver(Nil) && s.session.value.receiver.pc == ReceiverOver(Nil)
  }

  /** What happens next when nothing goes wrong. */
  function NextEvent(x: Session): Event {
    if x.sender.pc.Ready? || x.sender.pc.Closing? then SenderStep
    else if x.toSender != [] then SenderHears
    else ReceiverHears(None)
  }

  /** How far a live session is from the end. */
  ghost function Measure(u: Setup, x: Session): nat
    requires x.codec.cs > 0 && x.sender.sent <= |u.src| && x.start <= |u.src|
    requires x.sender.pc.AwaitAck? ==> x.sender.sent + x.sender.pc.n <= |u.src|
  {
    var late := if x.toReceiver != [] then 1 else 0;
    match x.sender.pc
    case AwaitRsp => 4 * x.codec.ChunkCount(|u.src| - x.start) + 5
    case Ready => 4 * x.codec.ChunkCount(|u.src| - x.sender.sent) + 4
    case AwaitAck(n) => 4 * x.codec.ChunkCount(|u.src| - x.sender.sent - n) + 6 + late
    case Closing => 3
    case AwaitFin => 1 + late
    case SenderOver(_) => 0
  }

  /** Lockstep: no other fault-free event than the next one can happen. */
  lemma OnlyTheNextEventIsPossible(u: Setup, s: State, e: Event)
    requires Inv(u, s) && Alive(s) && (e.SenderStep? || e.SenderHears? || e == ReceiverHears(None))
    ensures e != NextEvent(s.session.value) ==> Step(u, s, e) == s
  {}

  /** The same session, still alive, closer to the end. */
  ghost predicate Progress(u: Setup, s: State, t: State)
    requires Inv(u, s) && Alive(s) && Inv(u, t)
  {
    && Alive(t)
    && t.session.value.codec == s.session.value.codec && t.session.value.start == s.session.value.start
    && Measure(u, t.session.value) < Measure(u, s.session.value)
  }

  lemma NextEventMakesProgress(u: Setup, s: State)
    requires Inv(u, s) && Alive(s) && !Finished(s)
    ensures Inv(u, Step(u, s, NextEvent(s.session.value)))
    ensures Progress(u, s, Step(u, s, NextEvent(s.session.value)))
  {
    StepKeepsInv(u, s, NextEvent(s.session.value));
    if NextEvent(s.session.value).ReceiverHears? {
      ReceiverProgress(u, s);
    } else {
      SenderProgress(u, s);
    }
  }

  lemma SenderProgress(u: Setup, s: State)
    requires Inv(u, s) && Alive(s) && !Finished(s) && !NextEvent(s.session.value).ReceiverHears?
    requires Inv(u, Step(u, s, NextEvent(s.session.value)))
    ensures Progress(u, s, Step(u, s, NextEvent(s.session.value)))
  {
    if NextEvent(s.session.value).SenderStep? {
      SendingProgress(u, s);
    } else {
      HearingProgress(u, s);
    }
  }

  lemma SendingProgress(u: Setup, s: State)
    requires Inv(u, s) && Alive(s) && (s.session.value.sender.pc.Ready? || s.session.value.sender.pc.Closing?)
    requires Inv(u, Step(u, s, SenderStep))
    ensures Progress(u, s, Step(u, s, SenderStep))
  {
    hide IndexOf, Codec.Full, Codec.Frames, Codec.ChunkCount, Overlay, OnFrame, OnReply, ReceiverInv;
    var x := s.session.value;
    if x.sender.pc.Ready? && x.sender.sent < |u.src| {
      NextChunk(x.codec, |u.src| - x.sender.sent);
    }
  }

  lemma HearingProgress(u: Setup, s: State)
    requires Inv(u, s) && Alive(s) && s.session.value.toSender != []
    requires !s.session.value.sender.pc.Ready? && !s.session.value.sender.pc.Closing? && !s.session.value.sender.pc.SenderOver?
    requires Inv(u, Step(u, s, SenderHears))
    ensures Progress(u, s, Step(u, s, SenderHears))
  {
    hide IndexOf, Codec.Full, Codec.Frames, Codec.ChunkCount, Overlay, OnFrame, SenderReads, ReceiverInv;
  }

  lemma ReceiverProgress(u: Setup, s: State)
    requires Inv(u, s) && Alive(s) && !Finished(s) && NextEvent(s.session.value).ReceiverHears?
    requires Inv(u, Step(u, s, ReceiverHears(None)))
    ensures Progress(u, s, Step(u, s, ReceiverHears(None)))
  {
    hide OnFrame, IndexOf, Codec.Full, Codec.ChunkCount, Overlay;
    var x := s.session.value;
    if x.receiver.pc.Receiving? && x.toReceiver != [] {
      FrameArrives(u, x, None);
    }
  }

  /** Let the session run. */
  ghost function Complete(u: Setup, s: State): (t: State)
    requires Inv(u, s) && Alive(s)
    ensures Inv(u, t) && Finished(t)
    ensures t.session.value.codec == s.session.value.codec && t.session.value.start == s.session.value.start
    decreases Measure(u, s.session.value)
  {
    if Finished(s) then s
    else
      NextEventMakesProgress(u, s);
      Complete(u, Step(u, s, NextEvent(s.session.value)))
  }

  /** A session that is left alone, resumed on any prefix of the source with any chunk size, ends
      with both sides nil and the whole source at the destination, after exactly
      ceil((size - accepted) / chunkSize) data frames. */
  lemma FaultFreeSessionCompletes(u: Setup, disk: Option<bytes>, o: int, codec: Codec)
    requires GoodStart(u, disk) && Legal(Start(o, codec))
    ensures Inv(u, Initial(disk)) && Inv(u, Step(u, Initial(disk), Start(o, codec))) && Alive(Step(u, Initial(disk), Start(o, codec)))
    ensures var x := Complete(u, Step(u, Initial(disk), Start(o, codec))).session.value;
      && x.sender.pc == SenderOver(Nil) && x.receiver.pc == ReceiverOver(Nil)
      && x.receiver.disk == u.src
      && x.start == Accepted(disk, |u.src|, codec.cs) <= |u.src|
      && x.frames == CeilDiv(|u.src| - x.start, codec.cs)
  {
    Started(u, disk, o, codec);
    hide Step, Initial, Inv, SessionInv, Resume, Accepted;
    var t := Complete(u, Step(u, Initial(disk), Start(o, codec)));
    FinishedFacts(u, t);
    var x := t.session.value;
    codec.ClosedForms(|u.src| - x.start, 0);
  }

  lemma Started(u: Setup, disk: Option<bytes>, o: int, codec: Codec)
    requires GoodStart(u, disk) && Legal(Start(o, codec))
    ensures Inv(u, Initial(disk))
    ensures var s := Step(u, Initial(disk), Start(o, codec));
      && Inv(u, s) && Alive(s)
      && s.session.value.codec == codec && s.session.value.start == Accepted(disk, |u.src|, codec.cs) <= |u.src|
  {
    StartKeepsInv(u, Initial(disk), Start(o, codec));
    ResumeFacts(u.src, disk, codec);
  }

  lemma FinishedFacts(u: Setup, t: State)
    requires Inv(u, t) && Finished(t)
    ensures var x := t.session.value;
      && x.codec.cs > 0 && x.start <= |u.src|
      && x.receiver.disk == u.src && x.frames == x.codec.ChunkCount(|u.src| - x.start)
  {
    var d := t.session.value.receiver.disk;
    assert |u.src| <= |d| && d <= u.src;
  }

  // ---------- the exception: an ACKed chunk sent again ----------

  /** The next thing the sender puts on the wire is a chunk that was ACKed to its end before. */
  ghost predicate Resends(u: Setup, cs: nat, s: State) {
    && s.session.Some? && s.session.value.sender.pc.Ready?
    && 0 < NextLen(u.src, cs, s.session.value.sender.sent)
    && s.session.value.sender.sent + NextLen(u.src, cs, s.session.value.sender.sent) <= s.acked
  }

  /** With one chunk size for all sessions, some run makes the sender send an ACKed chunk again if and
      only if the size of the source is not a multiple of the chunk size: then the reply to a
      complete transfer may be lost, and the next session repeats its short last chunk. */
  lemma AckedChunkIsResentIff(u: Setup, o: int, codec: Codec)
    requires Legal(Start(o, codec)) && u.src != [] && |u.src| < I64
    ensures (exists es :: FixedRun(u, codec.cs, es) && Resends(u, codec.cs, Run(u, Initial(None), es)))
      <==> |u.src| % codec.cs != 0
  {
    if es :| FixedRun(u, codec.cs, es) && Resends(u, codec.cs, Run(u, Initial(None), es)) {
      ResentChunkIsShort(u, codec.cs, es);
    }
    if |u.src| % codec.cs != 0 {
      var es := ResendingRun(u, o, codec);
    }
  }

  /** And it repeats no more than that: a session that finds the whole source on disk and is left alone
      sends no data frame if the size is a multiple of the chunk size, and one otherwise. */
  lemma CompleteDestinationResendsOnlyAShortTail(u: Setup, o: int, codec: Codec)
    requires Legal(Start(o, codec)) && |u.src| < I64
    ensures Inv(u, Initial(Some(u.src)))
    ensures var s := Step(u, Initial(Some(u.src)), Start(o, codec));
      && Inv(u, s) && Alive(s)
      && Complete(u, s).session.value.frames == if |u.src| % codec.cs == 0 then 0 else 1
  {
    Started(u, Some(u.src), o, codec);
    FaultFreeSessionCompletes(u, Some(u.src), o, codec);
    FloorFacts(|u.src|, codec.cs);
    CeilDivStep(|u.src| % codec.cs, codec.cs);
    CeilDivStep(0, codec.cs);
    hide Complete, Step;
  }

  lemma ResentChunkIsShort(u: Setup, cs: nat, es: seq<Event>)
    requires |u.src| < I64 && FixedRun(u, cs, es) && Resends(u, cs, Run(u, Initial(None), es))
    ensures |u.src| % cs != 0
  {
    AckedChunksAreNotResent(u, cs, None, es);
    FloorFacts(0, cs);
    RunKeepsFixedInv(u, cs, Initial(None), es);
    var x := Run(u, Initial(None), es).session.value;
    x.codec.ClosedForms(0, x.sender.idx);
    Remainder(x.sender.idx, cs, |u.src| - x.sender.sent);
  }

  lemma Remainder(q: nat, cs: nat, n: nat)
    requires 0 < n < cs
    ensures (q * cs + n) % cs == n
  {
    var x := q * cs + n;
    DivUnique(x, cs, q, n);
    assert x == (x / cs) * cs + x % cs;
  }

  lemma {:induction false} RunAppend(u: Setup, s: State, a: seq<Event>, b: seq<Event>)
    requires Inv(u, s) && AllLegal(a) && AllLegal(b)
    ensures AllLegal(a + b) && Run(u, s, a + b) == Run(u, Run(u, s, a), b)
    decreases |a|
  {
    if a == [] {
      assert a + b == b;
    } else {
      StepKeepsInv(u, s, a[0]);
      RunAppend(u, Step(u, s, a[0]), a[1..], b);
      assert (a + b)[0] == a[0] && (a + b)[1..] == a[1..] + b;
    }
  }

  /** Everything up to the sender's offset has been ACKed, all of it if Send has returned nil. */
  ghost predicate AckedSoFar(u: Setup, s: State) {
    && s.session.Some? && s.session.value.start <= s.acked && s.session.value.sender.sent <= s.acked
    && (s.session.value.sender.pc == SenderOver(Nil) ==> s.session.value.sender.sent == |u.src|)
  }

  lemma NextEventIsAcked(u: Setup, s: State)
    requires Inv(u, s) && Alive(s) && AckedSoFar(u, s)
    ensures AckedSoFar(u, Step(u, s, NextEvent(s.session.value)))
  {
    hide IndexOf, Codec.Full, Codec.ChunkCount, Codec.Frames, OnFrame, Overlay;
  }

  /** The events of a session that is left alone. */
  lemma {:induction false} Script(u: Setup, s: State) returns (es: seq<Event>)
    requires Inv(u, s) && Alive(s) && AckedSoFar(u, s)
    ensures AllLegal(es) && (forall e :: e in es ==> !e.Start?)
    ensures var t := Run(u, s, es);
      Finished(t) && AckedSoFar(u, t)
    decreases Measure(u, s.session.value)
  {
    if Finished(s) {
      es := [];
    } else {
      var e := NextEvent(s.session.value);
      NextEventMakesProgress(u, s);
      NextEventIsAcked(u, s);
      hide Step, Inv, NextEvent, AckedSoFar;
      var rest := Script(u, Step(u, s, e));
      es := [e] + rest;
      assert es[0] == e && es[1..] == rest;
    }
  }

  /** A session to the end, its connection lost before anyone hears of it, and another session. */
  lemma ResendingRun(u: Setup, o: int, codec: Codec) returns (es: seq<Event>)
    requires Legal(Start(o, codec)) && |u.src| < I64 && |u.src| % codec.cs != 0
    ensures FixedRun(u, codec.cs, es) && Resends(u, codec.cs, Run(u, Initial(None), es))
  {
    var first := Start(o, codec);
    Started(u, None, o, codec);
    var s1 := Step(u, Initial(None), first);
    assert AckedSoFar(u, s1) by { NothingKept(u, codec); }
    var script := Script(u, s1);
    var s2 := Run(u, s1, script);
    FinishedFacts(u, s2);
    assert s2.acked >= |u.src|;
    var again := [Close, first, SenderHears];
    SecondSession(u, s2, o, codec);
    RunAppend(u, s1, script, again);
    es := [first] + (script + again);
    assert es[0] == first && es[1..] == script + again;
    assert forall e :: e in es ==> e == first || e in script || e in again;
    OneChunkSize(es, codec.cs);
  }

  lemma OneChunkSize(es: seq<Event>, cs: nat)
    requires forall e :: e in es && e.Start? ==> e.codec.cs == cs
    ensures FixedLegal(es, cs)
  {
    forall i | 0 <= i < |es| && es[i].Start?
      ensures es[i].codec.cs == cs
    {
      assert es[i] in es;
    }
  }

  lemma NothingKept(u: Setup, codec: Codec)
    requires codec.cs > 0
    ensures Resume(None, |u.src|, codec.cs).recv == 0
  {}

  lemma SecondSession(u: Setup, s: State, o: int, codec: Codec)
    requires Inv(u, s) && s.session.Some? && s.session.value.receiver.disk == u.src && s.acked >= |u.src|
    requires Legal(Start(o, codec)) && |u.src| % codec.cs != 0
    ensures var es := [Close, Start(o, codec), SenderHears];
      AllLegal(es) && Resends(u, codec.cs, Run(u, s, es))
  {
    var s1 := State(Some(u.src), None, s.acked);
    assert Step(u, s, Close) == s1;
    StepKeepsInv(u, s, Close);
    SecondStart(u, s1, o, codec);
    RunOfThree(u, s, Close, Start(o, codec), SenderHears);
  }

  lemma SecondStart(u: Setup, s: State, o: int, codec: Codec)
    requires Inv(u, s) && s.session.None? && s.disk == Some(u.src) && s.acked >= |u.src|
    requires Legal(Start(o, codec)) && |u.src| % codec.cs != 0
    ensures Inv(u, Step(u, s, Start(o, codec)))
    ensures Resends(u, codec.cs, Step(u, Step(u, s, Start(o, codec)), SenderHears))
  {
    StepKeepsInv(u, s, Start(o, codec));
    FloorFacts(|u.src|, codec.cs);
    hide IndexOf, Inv, SessionInv;
  }

  lemma RunOfThree(u: Setup, s: State, a: Event, b: Event, c: Event)
    requires Inv(u, s) && Legal(a) && Legal(b) && Legal(c)
    ensures Inv(u, Step(u, s, a)) && Inv(u, Step(u, Step(u, s, a), b)) && AllLegal([a, b, c])
    ensures Run(u, s, [a, b, c]) == Step(u, Step(u, Step(u, s, a), b), c)
  {
    Defined(u);
    hide Step, Inv, SessionShape;
    var s1 := Step(u, s, a);
    StepKeepsInv(u, s, a);
    var s2 := Step(u, s1, b);
    StepKeepsInv(u, s1, b);
    StepKeepsInv(u, s2, c);
    assert [a, b, c][1..] == [b, c] && [b, c][1..] == [c] && [c][1..] == [];
    assert Run(u, s, [a, b, c]) == Run(u, s1, [b, c]);
    assert Run(u, s1, [b, c]) == Run(u, s2, [c]);
    assert Run(u, s2, [c]) == Run(u, Step(u, s2, c), []);
  }

  lemma Defined(u: Setup)
    ensures forall s :: Inv(u, s) && s.session.Some? ==> SessionShape(u, s.session.value)
  {}
}
