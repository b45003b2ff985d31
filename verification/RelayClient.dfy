/** RelayClient.Put as the nested loop it is: one buffer, one offset, three tries a chunk. The
    relay is whatever the answers say; every chunk handed to the network is recorded. */
module RelayClient {
  import opened Bytes
  import opened Files
  import opened Ids
  import opened RelayUpload

  /** `sent` and the rest of the call from state `c` on make up the whole call. */
  ghost predicate Underway(u: Upload, answers: nat -> Answer, whole: (Option<Failure>, seq<Chunk>), sent: seq<Chunk>, c: Client, i: nat)
    requires u.chunk > 0
  {
    Busy(u, c) && var (end, later) := Rest(u, c, answers, i); whole == (end, sent + later)
  }

  lemma CallBegins(u: Upload, answers: nat -> Answer, c: Client)
    requires u.chunk > 0 && Busy(u, c)
    ensures Underway(u, answers, Rest(u, c, answers, 0), [], c, 0)
  {
    var (end, later) := Rest(u, c, answers, 0);
    assert [] + later == later;
  }

  lemma ExchangeDone(u: Upload, answers: nat -> Answer, whole: (Option<Failure>, seq<Chunk>), sent: seq<Chunk>, c: Client, i: nat)
    requires u.chunk > 0 && Underway(u, answers, whole, sent, c, i) && !c.Finished?
    ensures Underway(u, answers, whole, if Outgoing(u, c).Some? then sent + [Outgoing(u, c).value] else sent,
                     Hear(u, c, answers(i)), i + 1)
  {
    HearMakesProgress(u, c, answers(i));
    var c' := Hear(u, c, answers(i));
    var (end, later) := Rest(u, c', answers, i + 1);
    if Outgoing(u, c).Some? {
      var k := Outgoing(u, c).value;
      assert sent + ([k] + later) == (sent + [k]) + later;
    } else {
      assert [] + later == later;
    }
  }

  lemma CallEnds(u: Upload, answers: nat -> Answer, whole: (Option<Failure>, seq<Chunk>), sent: seq<Chunk>, c: Client, i: nat)
    requires u.chunk > 0 && Underway(u, answers, whole, sent, c, i) && c.Finished?
    ensures whole == (c.failure, sent)
  {
    assert sent + [] == sent;
  }

  /** Up to three tries for one chunk; the last answer decides. */
  method SendChunk(ghost u: Upload, answers: nat -> Answer, ghost whole: (Option<Failure>, seq<Chunk>),
                   sentBefore: seq<Chunk>, off: nat, body: bytes, first: nat)
    returns (lastErr: Option<Failure>, sent: seq<Chunk>, i: nat, a: Answer, ghost c: Client)
    requires u.chunk > 0 && Outgoing(u, Sending(off, |body|, 3)) == Some(Chunk(off, body))
    requires Underway(u, answers, whole, sentBefore, Sending(off, |body|, 3), first)
    ensures Underway(u, answers, whole, sent, c, i)
    ensures c == if lastErr.None? then NextChunk(u, off + |body|, a.cancelled) else Finished(lastErr)
  {
    hide Rest, Underway;
    lastErr, sent, i, c := None, sentBefore, first, Sending(off, |body|, 3);
    a := answers(first);
    var tries: nat := 3;
    while tries > 0
      invariant tries <= 3 && (tries < 3 ==> lastErr.Some?)
      invariant c == if tries > 0 then Sending(off, |body|, tries) else Finished(lastErr)
      invariant Underway(u, answers, whole, sent, c, i)
    {
      a := answers(i);
      ExchangeDone(u, answers, whole, sent, c, i);
      c := Hear(u, c, a);
      sent, i := sent + [Chunk(off, body)], i + 1;
      lastErr := if Accepts(a.code) then None else Some(if a.code.None? then NoResponse else StatusErr(a.code.value));
      if lastErr.None? {
        return;
      }
      tries := tries - 1;
    }
  }

  class RelayClient {
    const token: string
    const chunk: nat

    constructor (token: string, chunk: nat)
      ensures this.token == token && this.chunk == chunk
    {
      this.token, this.chunk := token, chunk;
    }

    /** The chunk loop from offset `off` on; `a` is the answer that told the offset. */
    method SendRest(ghost u: Upload, ghost whole: (Option<Failure>, seq<Chunk>), r: Source, size: int64, answers: nat -> Answer,
                    start: nat, last: Answer, first: nat, sentBefore: seq<Chunk>)
      returns (failure: Option<Failure>, sent: seq<Chunk>)
      requires chunk > 0 && r.Valid() && r.pos == start <= size && u.size == size && u.chunk == chunk && u.data == r.data
      requires Underway(u, answers, whole, sentBefore, NextChunk(u, start, last.cancelled), first)
      modifies r
      ensures (failure, sent) == whole
    {
      hide Rest, Underway, StorageId;
      var off, a, i: nat := start, last, first;
      ghost var c := NextChunk(u, off, a.cancelled);
      sent := sentBefore;
      var buf := new byte[chunk];
      while off < size
        invariant r.Valid() && r.pos == off <= size
        invariant c == NextChunk(u, off, a.cancelled) && Underway(u, answers, whole, sent, c, i)
        decreases size - off
      {
        if a.cancelled {
          CallEnds(u, answers, whole, sent, c, i);
          return Some(Cancelled), sent;
        }
        var want: nat := chunk;
        if size - off < want {
          want := size - off;
        }
        var n, err := r.ReadFull(buf, want);
        if err != NoErr {
          CallEnds(u, answers, whole, sent, c, i);
          return Some(ShortRead), sent;
        }
        var body := buf[..n];
        var lastErr;
        lastErr, sent, i, a, c := SendChunk(u, answers, whole, sent, off, body, i);
        if lastErr.Some? {
          CallEnds(u, answers, whole, sent, c, i);
          return lastErr, sent;
        }
        off := off + n;
      }
      CallEnds(u, answers, whole, sent, c, i);
      return None, sent;
    }

    /** Put: announce, ask where to resume, skip what is there, send the rest chunk by chunk. */
    method Put(id: string, r: Source, size: int64, cancelled: bool, answers: nat -> Answer)
      returns (failure: Option<Failure>, sent: seq<Chunk>)
      requires chunk > 0 && r.Valid() && r.pos == 0
      modifies r
      ensures var u := Upload(id, token, size, chunk, r.data);
        (failure, sent) == Rest(u, Begin(u, cancelled), answers, 0)
    {
      hide Rest, Underway, StorageId;
      ghost var u := Upload(id, token, size, chunk, r.data);
      ghost var whole := Rest(u, Begin(u, cancelled), answers, 0);
      CallBegins(u, answers, Begin(u, cancelled));
      sent := [];
      if !StorageId(id) || cancelled || size < 0 {
        CallEnds(u, answers, whole, sent, Begin(u, cancelled), 0);
        return Some(if !StorageId(id) then BadId else if cancelled then Cancelled else NegativeSize), sent;
      }
      // create
      var a := answers(0);
      ExchangeDone(u, answers, whole, sent, Creating, 0);
      if a.code.None? || (a.code.value != 200 && a.code.value != 201 && a.code.value != 409) {
        CallEnds(u, answers, whole, sent, Hear(u, Creating, a), 1);
        return Some(if a.code.None? then NoResponse else StatusErr(a.code.value)), sent;
      }
      // uploaded
      a := answers(1);
      ExchangeDone(u, answers, whole, sent, Asking, 1);
      ghost var c := Hear(u, Asking, a);
      var off: nat := if a.code == Some(200) && a.uploaded.Some? && a.uploaded.value >= 0 then a.uploaded.value else 0;
      if off > size {
        CallEnds(u, answers, whole, sent, c, 2);
        return Some(BeyondSize), sent;
      }
      if off > 0 {
        var skipped := r.Skip(off);
        if !skipped {
          CallEnds(u, answers, whole, sent, c, 2);
          return Some(SkipFailed), sent;
        }
      }
      var i: nat := 2;
      if size == 0 {
        var reply := answers(i);
        ExchangeDone(u, answers, whole, sent, SendingNothing, i);
        CallEnds(u, answers, whole, sent, Hear(u, SendingNothing, reply), i + 1);
        if reply.code.None? {
          return Some(NoResponse), sent;
        }
        if reply.code != Some(200) && reply.code != Some(201) {
          return Some(StatusErr(reply.code.value)), sent;
        }
        return None, sent;
      }
      failure, sent := SendRest(u, whole, r, size, answers, off, a, i, sent);
    }
  }
}
