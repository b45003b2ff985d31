/** p2p.Send and p2p.Receive as the loops they are, each proved against the steps of module
    DirectDrop, and what Receive guarantees against a peer that sends anything at all. */
module DirectDropLoops {
  import opened Bytes
  import opened Primitives
  import opened Files
  import opened Gd01
  import opened DirectDrop

  // ---------- the receiver ----------

  /** A frame off the wire, how far the write of its plaintext gets, and whether what is answered can
      be written. */
  datatype Input = Input(frame: Frame, torn: Option<nat>, answered: bool)

  /** One turn of the loop. An ACK or the final answer that cannot be written is an error; a refusal
      is an error anyway. */
  function Take(c: Codec, hash: Hash, a: Announced, r: Receiver, i: Input): (Receiver, seq<Reply>)
    requires r.recv <= |r.disk| && r.idx < U64
  {
    var (r', now) := OnFrame(c, hash, a, r, i.frame, i.torn);
    if i.answered || now == [] then (r', now)
    else if r'.pc.Receiving? || r'.pc == ReceiverOver(Nil) then (r'.(pc := ReceiverOver(Interrupted)), [])
    else (r', [])
  }

  /** All frames that arrive before the connection breaks or the context is done (or a FIN ends the
      transfer). */
  function ReceiveAll(c: Codec, hash: Hash, a: Announced, r: Receiver, inputs: seq<Input>): (Receiver, seq<Reply>)
    requires r.recv <= |r.disk| && r.idx < U64
    decreases |inputs|
  {
    if r.pc.ReceiverOver? then (r, [])
    else if inputs == [] then (r.(pc := ReceiverOver(Interrupted)), [])
    else
      var (r', now) := Take(c, hash, a, r, inputs[0]);
      var (last, later) := ReceiveAll(c, hash, a, r', inputs[1..]);
      (last, now + later)
  }

  /** The destination path of a transfer: opened without truncation, written at an offset. */
  class Destination {
    var content: Option<bytes>

    constructor (content: Option<bytes>)
      ensures this.content == content
    {
      this.content := content;
    }

    /** os.OpenFile with O_CREATE and O_WRONLY. */
    method Open()
      modifies this
      ensures content == Some(if old(content).None? then [] else old(content).value)
    {
      if content.None? {
        content := Some([]);
      }
    }

    method Truncate(n: nat)
      requires content.Some? && n <= |content.value|
      modifies this
      ensures content == Some(old(content).value[..n])
    {
      content := Some(content.value[..n]);
    }

    /** Write at the file offset; a torn write leaves the first bytes and fails. */
    method WriteAt(at: nat, p: bytes, torn: Option<nat>) returns (ok: bool)
      requires content.Some? && at <= |content.value|
      modifies this
      ensures ok <==> torn.None? || torn.value >= |p|
      ensures content == Some(Overlay(old(content).value, at, if ok then p else p[..torn.value]))
    {
      ok := torn.None? || torn.value >= |p|;
      content := Some(Overlay(content.value, at, if ok then p else p[..torn.value]));
    }
  }

  /** What is left of a reception: `now` has happened, `rest` is still to arrive. */
  ghost predicate ReceiveFrom(c: Codec, hash: Hash, a: Announced, whole: (Receiver, seq<Reply>),
                              r: Receiver, replies: seq<Reply>, rest: seq<Input>)
    requires r.recv <= |r.disk| && r.idx < U64
  {
    var (last, later) := ReceiveAll(c, hash, a, r, rest);
    whole == (last, replies + later)
  }

  lemma ReceiveStart(c: Codec, hash: Hash, a: Announced, r: Receiver, first: seq<Reply>, rest: seq<Input>)
    requires r.recv <= |r.disk| && r.idx < U64
    ensures var (last, out) := ReceiveAll(c, hash, a, r, rest);
      ReceiveFrom(c, hash, a, (last, first + out), r, first, rest)
  {}

  lemma ReceiveStep(c: Codec, hash: Hash, a: Announced, whole: (Receiver, seq<Reply>), r: Receiver, replies: seq<Reply>, rest: seq<Input>)
    requires r.recv <= |r.disk| && r.idx < U64 && r.pc.Receiving? && rest != []
    requires ReceiveFrom(c, hash, a, whole, r, replies, rest)
    ensures var (r', now) := Take(c, hash, a, r, rest[0]);
      && ReceiveFrom(c, hash, a, whole, r', replies + now, rest[1..])
      && (r'.pc.ReceiverOver? ==> whole == (r', replies + now))
  {
    var (r', now) := Take(c, hash, a, r, rest[0]);
    var (last, later) := ReceiveAll(c, hash, a, r', rest[1..]);
    assert (replies + now) + later == replies + (now + later);
    assert now + [] == now;
  }

  lemma ReceiveCut(c: Codec, hash: Hash, a: Announced, whole: (Receiver, seq<Reply>), r: Receiver, replies: seq<Reply>)
    requires r.recv <= |r.disk| && r.idx < U64 && r.pc.Receiving?
    requires ReceiveFrom(c, hash, a, whole, r, replies, [])
    ensures whole == (r.(pc := ReceiverOver(Interrupted)), replies)
  {
    assert replies + [] == replies;
  }

  /** p2p.Receive from the handshake on: answer where to resume, open `dst` there, then take frames
      until FIN or an error. `greeted` says whether the response can be written; `inputs` is what the
      connection delivers before it breaks. */
  method Receive(dst: Destination, c: Codec, hash: Hash, a: Announced, greeted: bool, inputs: seq<Input>)
    returns (verdict: Verdict, replies: seq<Reply>)
    requires c.cs > 0
    modifies dst
    ensures !greeted ==> verdict == Interrupted && replies == [] && dst.content == old(dst.content)
    ensures greeted ==>
      var start := Resume(old(dst.content), a.fileSize, c.cs);
      var (last, out) := ReceiveAll(c, hash, a, start, inputs);
      && dst.content == Some(last.disk) && last.pc == ReceiverOver(verdict)
      && replies == [Rsp(start.recv)] + out
  {
    hide Floor, IndexOf, ReceiveAll, ReceiveFrom;
    ghost var start := Resume(dst.content, a.fileSize, c.cs);
    var accepted := Accepted(dst.content, a.fileSize, c.cs);
    AcceptedFits(dst.content, a.fileSize, c.cs);
    if !greeted {
      return Interrupted, [];
    }
    dst.Open();
    if accepted > 0 {
      dst.Truncate(accepted);
    }
    var fed := dst.content.value[..accepted];
    var recv: nat, idx: nat := accepted, IndexOf(accepted, c.cs);
    replies := [Rsp(accepted)];
    ghost var all := ReceiveAll(c, hash, a, start, inputs);
    ghost var whole := (all.0, replies + all.1);
    ReceiveStart(c, hash, a, start, replies, inputs);
    var i := 0;
    while i < |inputs|
      invariant 0 <= i <= |inputs| && dst.content.Some? && recv <= |dst.content.value| && idx < U64
      invariant ReceiveFrom(c, hash, a, whole, Receiver(Receiving, dst.content.value, recv, idx, fed), replies, inputs[i..])
    {
      var frame, torn, answered := inputs[i].frame, inputs[i].torn, inputs[i].answered;
      ReceiveStep(c, hash, a, whole, Receiver(Receiving, dst.content.value, recv, idx, fed), replies, inputs[i..]);
      i := i + 1;
      if |frame| == 0 {
        if recv != a.fileSize || hash(fed) != a.fileHash {
          return HashMismatch, replies + (if answered then [Fin(1, recv)] else []);
        }
        if !answered {
          return Interrupted, replies + [];
        }
        return Nil, replies + [Fin(0, recv)];
      }
      if |frame| > c.cs + OVERHEAD + 16 {
        return Oversize, replies + [];
      }
      var plain := c.open(frame, idx);
      if plain.None? {
        return Undecryptable, replies + (if answered then [Ack(-1)] else []);
      }
      var ok := dst.WriteAt(recv, plain.value, torn);
      if !ok {
        return Interrupted, replies + [];
      }
      fed := fed + plain.value;
      recv := recv + |plain.value|;
      if recv > a.fileSize {
        return Overlong, replies + (if answered then [Fin(1, recv)] else []);
      }
      idx := NextIndex(idx);
      if !answered {
        return Interrupted, replies + [];
      }
      replies := replies + [Ack(recv)];
    }
    assert inputs[i..] == [];
    ReceiveCut(c, hash, a, whole, Receiver(Receiving, dst.content.value, recv, idx, fed), replies);
    return Interrupted, replies;
  }

  // ---------- whatever the peer sends ----------

  /** The receiver's file is what the hash has seen, then whatever was there before. */
  ghost predicate Honest(start: Receiver, r: Receiver) {
    && r.recv <= |r.disk| && r.idx < U64
    && |r.fed| == r.recv && r.disk[..r.recv] == r.fed
    && (|r.disk| == if r.recv <= |start.disk| then |start.disk| else r.recv)
  }

  lemma {:induction false} ReceiveKeepsHonest(c: Codec, hash: Hash, a: Announced, start: Receiver, r: Receiver, inputs: seq<Input>)
    requires Honest(start, r) && r.pc.Receiving? && r.recv <= a.fileSize
    ensures var last := ReceiveAll(c, hash, a, r, inputs).0;
      last.pc == ReceiverOver(Nil) ==> Honest(start, last) && last.recv == a.fileSize && hash(last.fed) == a.fileHash
    decreases |inputs|
  {
    if inputs != [] {
      var f := inputs[0].frame;
      var r' := Take(c, hash, a, r, inputs[0]).0;
      if r'.pc.Receiving? {
        var p := c.open(f, r.idx).value;
        assert r'.disk == Overlay(r.disk, r.recv, p);
        assert r'.disk[..r'.recv] == r.fed + p;
        ReceiveKeepsHonest(c, hash, a, start, r', inputs[1..]);
      }
    }
  }

  /** Against any peer and any network: when Receive returns nil, the first fileSize bytes at the
      destination are bytes with the announced digest. They are the whole file exactly when the
      destination was not longer than the announced size before: a longer one is not cut. */
  lemma NilMeansVerified(c: Codec, hash: Hash, a: Announced, disk: Option<bytes>, inputs: seq<Input>)
    requires c.cs > 0
    ensures var last := ReceiveAll(c, hash, a, Resume(disk, a.fileSize, c.cs), inputs).0;
      last.pc == ReceiverOver(Nil) ==>
        && |last.fed| == a.fileSize && hash(last.fed) == a.fileHash
        && last.fed <= last.disk
        && (last.disk == last.fed <==> disk.None? || |disk.value| <= a.fileSize)
  {
    AcceptedFits(disk, a.fileSize, c.cs);
    var start := Resume(disk, a.fileSize, c.cs);
    ReceiveKeepsHonest(c, hash, a, start, start, inputs);
    var last := ReceiveAll(c, hash, a, start, inputs).0;
    if last.pc == ReceiverOver(Nil) && |last.disk| == |last.fed| {
      assert last.disk[..last.recv] == last.disk;
    }
  }

  /** Such an input: a one-byte file arrives whole over a longer one, and two old bytes stay behind it. */
  lemma LongerDestinationKeepsItsTail(c: Codec, hash: Hash)
    requires c.Valid()
    ensures var a := Announced(1, hash([7]));
      var last := ReceiveAll(c, hash, a, Resume(Some([1, 2, 3]), 1, c.cs), [Input(c.seal([7], 0), None, true), Input([], None, true)]).0;
      last.pc == ReceiverOver(Nil) && last.disk == [7, 2, 3]
  {
    var a, p: bytes := Announced(1, hash([7])), [7];
    var r0 := Resume(Some([1, 2, 3]), 1, c.cs);
    AcceptedFits(Some([1, 2, 3]), 1, c.cs);
    IndexOfNothing(c.cs);
    var data, fin := Input(c.seal(p, 0), None, true), Input([], None, true);
    var r1 := Take(c, hash, a, r0, data).0;
    assert r0.disk[..0] == [] && r0.disk[1..] == [2, 3] && r0.fed + p == p;
    assert r1 == Receiver(Receiving, [7, 2, 3], 1, 1, p);
    var r2 := Take(c, hash, a, r1, fin).0;
    var inputs := [data, fin];
    assert inputs[1..] == [fin] && [fin][1..] == [];
    hide Take;
    assert ReceiveAll(c, hash, a, r1, [fin]).0 == ReceiveAll(c, hash, a, r2, []).0 == r2;
  }

  lemma IndexOfNothing(cs: nat)
    requires cs > 0
    ensures IndexOf(0, cs) == 0
  {}

  lemma AcceptedFits(disk: Option<bytes>, fileSize: nat, cs: nat)
    requires cs > 0
    ensures Accepted(disk, fileSize, cs) <= if disk.None? then 0 else |disk.value|
    ensures disk.Some? && |disk.value| > fileSize ==> Accepted(disk, fileSize, cs) == 0
  {
    FloorFacts(if disk.None? then 0 else |disk.value|, cs);
  }

  // ---------- the sender ----------

  /** The sender against the replies that arrive before the connection breaks: its last state and
      the frames it has put on the wire. `writes` says, frame by frame, whether the context is alive
      and the frame can be written; `w` frames have been tried. */
  function SendAll(src: bytes, c: Codec, s: Sender, writes: nat -> bool, w: nat, replies: seq<Reply>): (Sender, seq<Frame>)
    requires c.cs > 0 && s.idx < U64 && s.sent <= |src|
    requires s.pc.AwaitAck? ==> s.sent + s.pc.n <= |src|
    decreases |replies|, if s.pc.Ready? || s.pc.Closing? then 1 else 0
  {
    if s.pc.SenderOver? then (s, [])
    else if s.pc.Ready? || s.pc.Closing? then
      if !writes(w) then (s.(pc := SenderOver(Interrupted)), [])
      else
        var (t, f) := SenderReads(src, c, s);
        var (last, later) := SendAll(src, c, t, writes, w + 1, replies);
        (last, [f] + later)
    else if replies == [] then (s.(pc := SenderOver(Interrupted)), [])
    else SendAll(src, c, OnReply(src, c, s, replies[0]), writes, w, replies[1..])
  }

  /** What is left of a sending. */
  ghost predicate SendFrom(src: bytes, c: Codec, whole: (Sender, seq<Frame>), s: Sender, frames: seq<Frame>, writes: nat -> bool, rest: seq<Reply>)
    requires c.cs > 0 && s.idx < U64 && s.sent <= |src|
    requires s.pc.AwaitAck? ==> s.sent + s.pc.n <= |src|
  {
    var (last, later) := SendAll(src, c, s, writes, |frames|, rest);
    whole == (last, frames + later)
  }

  /** Taking the next reply (or finding the connection gone). */
  lemma SendHears(src: bytes, c: Codec, whole: (Sender, seq<Frame>), s: Sender, frames: seq<Frame>, writes: nat -> bool, rest: seq<Reply>)
    requires c.cs > 0 && s.idx < U64 && s.sent <= |src| && (s.pc.AwaitAck? ==> s.sent + s.pc.n <= |src|)
    requires s.pc.AwaitRsp? || s.pc.AwaitAck? || s.pc.AwaitFin?
    requires SendFrom(src, c, whole, s, frames, writes, rest)
    ensures rest == [] ==> whole == (s.(pc := SenderOver(Interrupted)), frames)
    ensures rest != [] ==>
      var t := OnReply(src, c, s, rest[0]);
      && (t.pc.SenderOver? ==> whole == (t, frames))
      && (!t.pc.SenderOver? ==> SendFrom(src, c, whole, t, frames, writes, rest[1..]))
  {
    assert frames + [] == frames;
    if rest != [] {
      assert SendAll(src, c, s, writes, |frames|, rest) == SendAll(src, c, OnReply(src, c, s, rest[0]), writes, |frames|, rest[1..]);
    }
  }

  /** Putting the next frame on the wire, or failing to. */
  lemma SendReads(src: bytes, c: Codec, whole: (Sender, seq<Frame>), s: Sender, frames: seq<Frame>, writes: nat -> bool, rest: seq<Reply>)
    requires c.cs > 0 && s.idx < U64 && s.sent <= |src| && (s.pc.Ready? || s.pc.Closing?)
    requires SendFrom(src, c, whole, s, frames, writes, rest)
    ensures !writes(|frames|) ==> whole == (s.(pc := SenderOver(Interrupted)), frames)
    ensures writes(|frames|) ==>
      var (t, f) := SenderReads(src, c, s);
      SendFrom(src, c, whole, t, frames + [f], writes, rest)
  {
    assert frames + [] == frames;
    if writes(|frames|) {
      var (t, f) := SenderReads(src, c, s);
      var later := SendAll(src, c, t, writes, |frames| + 1, rest).1;
      assert (frames + [f]) + later == frames + ([f] + later);
    }
  }

  /** p2p.Send from the written handshake on. The file has been read once for its digest, so a
      source that breaks never gets here. */
  method Send(src: Source, c: Codec, writes: nat -> bool, replies: seq<Reply>) returns (verdict: Verdict, frames: seq<Frame>)
    requires src.Valid() && !src.broken && c.cs > 0
    modifies src
    ensures var (last, out) := SendAll(src.data, c, Sender(AwaitRsp, 0, 0), writes, 0, replies);
      last.pc == SenderOver(verdict) && frames == out
  {
    hide IndexOf, SendAll, SendFrom;
    ghost var whole, s := SendAll(src.data, c, Sender(AwaitRsp, 0, 0), writes, 0, replies), Sender(AwaitRsp, 0, 0);
    frames := [];
    SendStart(src.data, c, writes, replies);
    SendHears(src.data, c, whole, s, frames, writes, replies);
    if |replies| == 0 {
      return Interrupted, frames;
    }
    if !replies[0].Rsp? || replies[0].accepted > |src.data| {
      return BadOffset, frames;
    }
    var accepted := replies[0].accepted;
    if accepted % c.cs != 0 {
      return Unaligned, frames;
    }
    src.pos := accepted;
    var sent: nat, idx: nat := accepted, IndexOf(accepted, c.cs);
    var plain := new byte[c.cs];
    var i := 1;
    s := Sender(Ready, sent, idx);
    while true
      invariant src.Valid() && src.pos == sent && idx < U64 && 1 <= i <= |replies|
      invariant s == Sender(Ready, sent, idx)
      invariant SendFrom(src.data, c, whole, s, frames, writes, replies[i..])
      decreases |replies| - i
    {
      SendReads(src.data, c, whole, s, frames, writes, replies[i..]);
      var n, rerr := src.ReadFull(plain, plain.Length);
      if n == 0 {
        break;
      }
      if !writes(|frames|) {
        return Interrupted, frames;
      }
      var chunk := plain[..n];
      assert chunk == src.data[sent..sent + n];
      frames := frames + [c.seal(chunk, idx)];
      s := Sender(AwaitAck(n), sent, idx);
      SendHears(src.data, c, whole, s, frames, writes, replies[i..]);
      if i == |replies| {
        return Interrupted, frames;
      }
      var got := replies[i];
      i := i + 1;
      if got == Ack(-1) {
        return Rejected, frames;
      }
      if got != Ack(sent + n) {
        return AckMismatch, frames;
      }
      sent := sent + n;
      if rerr != NoErr {
        s := Sender(Closing, sent, idx);
        break;
      }
      idx := NextIndex(idx);
      s := Sender(Ready, sent, idx);
    }
    SendReads(src.data, c, whole, s, frames, writes, replies[i..]);
    if !writes(|frames|) {
      return Interrupted, frames;
    }
    frames := frames + [[]];
    s := s.(pc := AwaitFin);
    SendHears(src.data, c, whole, s, frames, writes, replies[i..]);
    if i == |replies| {
      return Interrupted, frames;
    }
    if !replies[i].Fin? || replies[i].code != 0 {
      return HashMismatch, frames;
    }
    return Nil, frames;
  }

  lemma SendStart(src: bytes, c: Codec, writes: nat -> bool, replies: seq<Reply>)
    requires c.cs > 0
    ensures SendFrom(src, c, SendAll(src, c, Sender(AwaitRsp, 0, 0), writes, 0, replies), Sender(AwaitRsp, 0, 0), [], writes, replies)
  {
    var out := SendAll(src, c, Sender(AwaitRsp, 0, 0), writes, 0, replies).1;
    assert [] + out == out;
  }
}
