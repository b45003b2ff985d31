/** What a single call of Put achieves on a network without faults: it resumes at the watermark and
    finishes, exactly if the relay lets the announcement pass; and the calls that cannot succeed. */
module RelayResume {
  import opened Bytes
  import opened ContentRange
  import opened Files
  import opened Ids
  import opened RelayServer
  import opened RelayUpload

  /** The circumstances of a call: when it runs, and which expiry it announces. */
  datatype Setting = Setting(h: TokenHash, quota: int64, now: int, expiry: int, luck: CreateLuck)

  /** The relay receives what the client asks in state `c` and its reply arrives. */
  ghost function Exchange(e: Setting, s: Relay, u: Upload, c: Client): (Relay, Answer)
    requires Busy(u, c)
  {
    match c
    case Creating =>
      var (s', reply) := Create(e.h, e.quota, Wrap64(StoredBytes(s.bins)), s, CreateRequest(u.id, u.size, Some(e.expiry), false), e.now, e.luck);
      (s', Answer(Some(Code(reply)), None, false))
    case Asking =>
      var reply := Describe(e.h, s, u.id, u.token, e.now);
      (s, Answer(Some(Code(reply)), if reply.Described? then Some(reply.meta.uploaded) else None, false))
    case Sending(_, _, _) =>
      var (s', reply) := Put(e.h, s, RequestFor(u, Outgoing(u, c).value), e.now, FINE);
      (s', Answer(Some(Code(reply)), None, false))
    case SendingNothing =>
      var (s', reply) := Put(e.h, s, PutRequest(u.id, u.token, "", [], false), e.now, FINE);
      (s', Answer(Some(Code(reply)), None, false))
    case Finished(_) => (s, Answer(None, None, false))
  }

  /** The whole call: the relay afterwards, what Put returned, and how many chunks it sent. */
  ghost function Call(e: Setting, s: Relay, u: Upload, c: Client): (Relay, Option<Failure>, nat)
    requires u.chunk > 0 && Busy(u, c)
    decreases if c.Finished? then 0 else 1, Effort(u, c).0, Effort(u, c).1
  {
    if c.Finished? then (s, c.failure, 0)
    else
      var (s', a) := Exchange(e, s, u, c);
      HearMakesProgress(u, c, a);
      var (end, failure, n) := Call(e, s', u, Hear(u, c, a));
      (end, failure, n + if c.Sending? then 1 else 0)
  }

  /** The drop is there for the client: valid id, its token, not expired; the reader has it all. */
  ghost predicate Usable(e: Setting, sh: Shared, s: Relay, log: Log, u: Upload) {
    && Watermark(sh, s, log) && CallOf(sh, u) && 0 < |sh.src| < MAX_SIZE
    && |u.data| >= |sh.src| && StorageId(u.id)
    && TokenOk(e.h, sh.token, s.metas[sh.id].tokenHash)
    && !s.metas[sh.id].Expired(e.now) && e.now < e.expiry
  }

  lemma DataIsSource(sh: Shared, u: Upload, off: nat, n: nat)
    requires CallOf(sh, u) && |u.data| >= |sh.src| && off + n <= |sh.src|
    ensures u.data[off..off + n] == sh.src[off..off + n]
  {}

  /** A chunk sent at the watermark is stored and moves it. */
  lemma ChunkGoesThrough(e: Setting, sh: Shared, s: Relay, log: Log, u: Upload, n: nat, tries: nat)
    requires Usable(e, sh, s, log, u) && var up := s.metas[sh.id].uploaded; up < |sh.src| && Busy(u, Sending(up, n, tries))
    ensures var up := s.metas[sh.id].uploaded;
      var (s', a) := Exchange(e, s, u, Sending(up, n, tries));
      && a == Answer(Some(200), None, false)
      && (exists log' :: Usable(e, sh, s', log', u)) && s'.metas[sh.id].uploaded == up + n
  {
    var up := s.metas[sh.id].uploaded;
    var k := Outgoing(u, Sending(up, n, tries)).value;
    DataIsSource(sh, u, up, n);
    assert ChunkOk(sh, k);
    assert k.body[..|k.body|] == k.body;
    var q := RequestFor(u, k);
    assert q == Delivery(sh, k, n, false);
    ChunkIsAdmitted(e, sh, s, log, u, k);
    var event := Puts(q, e.now, FINE);
    DeliveryKeepsWatermark(e.h, e.quota, sh, s, log, k, n, false, e.now, FINE);
    var (s', reply) := Step(e.h, e.quota, s, event);
    var log' := Logged(log, event, reply);
    hide Watermark, Put, RequestFor, Delivery, StorageId, TokenOk;
    assert Usable(e, sh, s', log', u);
  }

  lemma ChunkIsAdmitted(e: Setting, sh: Shared, s: Relay, log: Log, u: Upload, k: Chunk)
    requires Usable(e, sh, s, log, u) && ChunkOk(sh, k) && k.off == s.metas[sh.id].uploaded
    ensures var (s', reply) := Put(e.h, s, Delivery(sh, k, |k.body|, false), e.now, FINE);
      && reply.Stored? && Live(s', sh.id)
      && s'.metas[sh.id] == s.metas[sh.id].(uploaded := k.off + |k.body|)
  {
    hide TrimSpace, ParseContentRange, FormatContentRange, RelayId, TokenOk, WriteAt, Resized, StorageId, Inv;
    InvFacts(s, log, 1);
    ContentRangeRoundTrip(k.off, k.off + |k.body| - 1, |sh.src|);
    assert k.body[..|k.body|] == k.body;
    NotEmpty(k.off, k.off + |k.body| - 1, |sh.src|);
  }

  lemma CallSteps(e: Setting, s: Relay, u: Upload, c: Client)
    requires u.chunk > 0 && Busy(u, c)
    ensures c.Finished? ==> Call(e, s, u, c) == (s, c.failure, 0)
    ensures !c.Finished? ==>
        var (s', a) := Exchange(e, s, u, c);
        && Busy(u, Hear(u, c, a))
        && var (end, failure, n) := Call(e, s', u, Hear(u, c, a));
        Call(e, s, u, c) == (end, failure, n + if c.Sending? then 1 else 0)
  {
    hide Exchange, Hear;
    if !c.Finished? {
      HearMakesProgress(u, c, Exchange(e, s, u, c).1);
    }
  }

  /** What a call that started sending at offset `up` should come to. */
  ghost predicate Uploaded(sh: Shared, u: Upload, up: nat, r: (Relay, Option<Failure>, nat)) {
    && up <= |sh.src| && u.chunk > 0
    && r.1 == None && r.2 == CeilDiv(|sh.src| - up, u.chunk)
    && Live(r.0, sh.id) && sh.src <= r.0.bins[sh.id]
  }

  lemma NextChunkFacts(sh: Shared, u: Upload, up: nat)
    requires CallOf(sh, u) && |u.data| >= |sh.src| && up <= |sh.src|
    ensures var c := NextChunk(u, up, false);
      && Busy(u, c)
      && c == if up == |sh.src| then Finished(None) else Sending(up, Min(u.chunk, |sh.src| - up), 3)
    ensures Hear(u, Sending(up, Min(u.chunk, |sh.src| - up), 3), Answer(Some(200), None, false))
      == NextChunk(u, up + Min(u.chunk, |sh.src| - up), false)
  {}

  /** From the watermark on, the chunks go through one after the other. */
  lemma {:induction false} ChunksComplete(e: Setting, sh: Shared, s: Relay, log: Log, u: Upload, up: nat)
    requires Usable(e, sh, s, log, u) && up == s.metas[sh.id].uploaded && Busy(u, NextChunk(u, up, false))
    ensures Uploaded(sh, u, up, Call(e, s, u, NextChunk(u, up, false)))
    decreases |sh.src| - up
  {
    hide Call, Exchange, CeilDiv, Usable, Busy, Hear, NextChunk, CallOf;
    UsableFacts(e, sh, s, log, u);
    NextChunkFacts(sh, u, up);
    CeilDivStep(|sh.src| - up, u.chunk);
    CallSteps(e, s, u, NextChunk(u, up, false));
    if up < |sh.src| {
      var n := Min(u.chunk, |sh.src| - up);
      ChunkGoesThrough(e, sh, s, log, u, n, 3);
      var s' := Exchange(e, s, u, Sending(up, n, 3)).0;
      var log' :| Usable(e, sh, s', log', u);
      ChunksComplete(e, sh, s', log', u, up + n);
    }
  }

  lemma UsableFacts(e: Setting, sh: Shared, s: Relay, log: Log, u: Upload)
    requires Usable(e, sh, s, log, u)
    ensures Live(s, sh.id) && CallOf(sh, u) && u.chunk > 0 && |u.data| >= |sh.src| && 0 <= s.metas[sh.id].uploaded <= |sh.src|
    ensures s.metas[sh.id].uploaded == |sh.src| ==> sh.src <= s.bins[sh.id]
  {
    hide Inv, StorageId, TokenOk;
    if s.metas[sh.id].uploaded == |sh.src| {
      StoredAll(sh, s, log);
    }
  }

  lemma StoredAll(sh: Shared, s: Relay, log: Log)
    requires Watermark(sh, s, log) && s.metas[sh.id].uploaded == |sh.src| < MAX_SIZE
    ensures sh.src <= s.bins[sh.id]
  {
    InvFacts(s, log, 1);
    assert sh.src[..|sh.src|] == sh.src;
  }

  // ---------- the theorems ----------

  /** A Put of a drop that holds any prefix of the source resumes there, sends each remaining chunk
      once and stores everything, exactly if the relay's quota has room for the announced size once
      more: the announcement is checked against the quota before the relay notices that the drop
      exists. Otherwise Put reports the quota error and nothing changes. */
  lemma ResumeCompletes(e: Setting, sh: Shared, s: Relay, log: Log, u: Upload)
    requires Usable(e, sh, s, log, u)
    ensures var r := Call(e, s, u, Begin(u, false));
      if e.quota <= 0 || Add64(Wrap64(StoredBytes(s.bins)), u.size) <= e.quota
      then Uploaded(sh, u, s.metas[sh.id].uploaded, r)
      else r == (s, Some(OverQuota), 0)
  {
    var up := s.metas[sh.id].uploaded;
    AnnouncedAndAsked(e, sh, s, log, u);
    hide Call, Exchange, Usable, Hear, NextChunk, CallOf, Uploaded, Add64;
    UsableFacts(e, sh, s, log, u);
    NextChunkFacts(sh, u, up);
    ChunksComplete(e, sh, s, log, u, up);
    CallSteps(e, s, u, Creating);
    CallSteps(e, s, u, Asking);
    CallSteps(e, s, u, Finished(Some(OverQuota)));
  }

  lemma AnnouncedAndAsked(e: Setting, sh: Shared, s: Relay, log: Log, u: Upload)
    requires Usable(e, sh, s, log, u)
    ensures Begin(u, false) == Creating
    ensures var (s', a) := Exchange(e, s, u, Creating);
      && s' == s
      && Hear(u, Creating, a) ==
           if e.quota <= 0 || Add64(Wrap64(StoredBytes(s.bins)), u.size) <= e.quota then Asking else Finished(Some(OverQuota))
    ensures var (s', a) := Exchange(e, s, u, Asking);
      s' == s && Hear(u, Asking, a) == NextChunk(u, s.metas[sh.id].uploaded, false)
  {
    hide Inv, RelayId, StorageId, TokenOk, NextChunk, Add64, StoredBytes, Wrap64;
    InvFacts(s, log, 1);
  }

  /** The relay turns an announcement of zero bytes away whatever it holds, so a Put of an empty
      payload never succeeds. */
  lemma EmptyPayloadIsRefused(e: Setting, s: Relay, u: Upload)
    requires u.chunk > 0 && u.size == 0 && StorageId(u.id)
    ensures Call(e, s, u, Begin(u, false)) == (s, Some(Status(400)), 0)
  {
    hide Call;
    CallSteps(e, s, u, Creating);
    CallSteps(e, s, u, Finished(Some(Status(400))));
  }

  /** A chunk that is not at the watermark when it arrives (it was stored and its reply lost, or other
      clients have moved the watermark into it or past it) is refused on every try, and Put fails. */
  lemma {:induction false} MisplacedChunkFailsTheCall(e: Setting, sh: Shared, s: Relay, log: Log, u: Upload, c: Client)
    requires Usable(e, sh, s, log, u) && c.Sending? && Busy(u, c) && c.off != s.metas[sh.id].uploaded
    ensures Call(e, s, u, c) == (s, Some(Status(409)), c.tries)
    decreases c.tries
  {
    hide Call, Exchange, Usable, Busy, Hear;
    UsableFacts(e, sh, s, log, u);
    SentAgain(e, sh, s, log, u, c);
    CallSteps(e, s, u, c);
    if c.tries > 1 {
      MisplacedChunkFailsTheCall(e, sh, s, log, u, Sending(c.off, c.n, c.tries - 1));
    } else {
      CallSteps(e, s, u, Finished(Some(Status(409))));
    }
  }

  lemma SentAgain(e: Setting, sh: Shared, s: Relay, log: Log, u: Upload, c: Client)
    requires Usable(e, sh, s, log, u) && c.Sending? && Busy(u, c) && c.off != s.metas[sh.id].uploaded
    ensures Exchange(e, s, u, c) == (s, Answer(Some(409), None, false))
    ensures c.tries > 0 && Hear(u, c, Answer(Some(409), None, false)) ==
      if c.tries > 1 then Sending(c.off, c.n, c.tries - 1) else Finished(Some(Status(409)))
  {
    hide TrimSpace, ParseContentRange, FormatContentRange, RelayId, TokenOk, StorageId, Inv;
    InvFacts(s, log, 1);
    ContentRangeRoundTrip(c.off, c.off + c.n - 1, |sh.src|);
    NotEmpty(c.off, c.off + c.n - 1, |sh.src|);
  }

  /** So a call that is about to send a chunk on a network without further faults succeeds if and only
      if its offset is the relay's watermark. After a lost reply it is not: the bytes are stored and
      Put fails. (The next Put resumes behind them.) */
  lemma LostReplyFailsTheCall(e: Setting, sh: Shared, s: Relay, log: Log, u: Upload, c: Client)
    requires Usable(e, sh, s, log, u) && c.Sending? && Busy(u, c) && c.n == Min(u.chunk, u.size - c.off)
    ensures Call(e, s, u, c).1 == None <==> c.off == s.metas[sh.id].uploaded
  {
    hide Call, Exchange, Usable, Hear;
    UsableFacts(e, sh, s, log, u);
    if c.off != s.metas[sh.id].uploaded {
      MisplacedChunkFailsTheCall(e, sh, s, log, u, c);
    } else {
      ChunkGoesThrough(e, sh, s, log, u, c.n, c.tries);
      var s' := Exchange(e, s, u, c).0;
      var log' :| Usable(e, sh, s', log', u);
      AcceptedGoesOn(u, c);
      CallSteps(e, s, u, c);
      ChunksComplete(e, sh, s', log', u, c.off + c.n);
    }
  }

  lemma AcceptedGoesOn(u: Upload, c: Client)
    requires c.Sending? && Busy(u, c)
    ensures Hear(u, c, Answer(Some(200), None, false)) == NextChunk(u, c.off + c.n, false)
  {}
}
