/** Resumable upload to a relay: RelayClient.Put as a step function over the answers it gets, and
    any number of such clients on one network with one relay, where requests and replies may be
    lost, delayed, repeated and overtaken, and bodies torn. */
module RelayUpload {
  import opened Bytes
  import opened ContentRange
  import opened Files
  import opened Ids
  import opened RelayServer

  // ---------- the client ----------

  /** One call of Put. `data` is what the reader holds. */
  datatype Upload = Upload(id: string, token: string, size: int64, chunk: nat, data: bytes)

  datatype Failure =
    | BadId | NegativeSize | Cancelled | NoResponse
    | NotFound | Gone | OverQuota | Status(code: nat)     // statusErr
    | BeyondSize | SkipFailed | ShortRead

  datatype Client =
    | Creating
    | Asking
    | Sending(off: nat, n: nat, tries: nat)   // bytes [off, off + n) are on their way
    | SendingNothing                          // the special case of size 0
    | Finished(failure: Option<Failure>)      // None: Put returned nil

  /** What an exchange brings: nothing, or a status and perhaps a number of uploaded bytes.
      `cancelled` says whether the context is done when Put next looks at it. */
  datatype Answer = Answer(code: Option<nat>, uploaded: Option<int>, cancelled: bool)

  function StatusErr(code: nat): Failure {
    if code == 404 then NotFound else if code == 410 then Gone
    else if code == 507 || code == 403 then OverQuota else Status(code)
  }

  function Begin(u: Upload, cancelled: bool): Client {
    if !StorageId(u.id) then Finished(Some(BadId))
    else if cancelled then Finished(Some(Cancelled))
    else if u.size < 0 then Finished(Some(NegativeSize))
    else Creating
  }

  /** The head of the chunk loop at offset `off`. */
  function NextChunk(u: Upload, off: nat, cancelled: bool): Client {
    if off >= u.size then Finished(None)
    else if cancelled then Finished(Some(Cancelled))
    else
      var n := Min(u.chunk, u.size - off);
      if off + n > |u.data| then Finished(Some(ShortRead)) else Sending(off, n, 3)
  }

  function Hear(u: Upload, c: Client, a: Answer): Client {
    match c
    case Creating =>
      if a.code.None? then Finished(Some(NoResponse))
      else if a.code.value == 200 || a.code.value == 201 || a.code.value == 409 then Asking
      else Finished(Some(StatusErr(a.code.value)))
    case Asking =>
      var off := if a.code == Some(200) && a.uploaded.Some? && a.uploaded.value >= 0 then a.uploaded.value else 0;
      if off > u.size then Finished(Some(BeyondSize))
      else if off > |u.data| then Finished(Some(SkipFailed))
      else if u.size == 0 then SendingNothing
      else NextChunk(u, off, a.cancelled)
    case Sending(off, n, tries) =>
      if a.code == Some(200) || a.code == Some(201) || a.code == Some(206) then NextChunk(u, off + n, a.cancelled)
      else if tries > 1 then Sending(off, n, tries - 1)
      else Finished(Some(if a.code.None? then NoResponse else StatusErr(a.code.value)))
    case SendingNothing =>
      if a.code.None? then Finished(Some(NoResponse))
      else if a.code == Some(200) || a.code == Some(201) then Finished(None)
      else Finished(Some(StatusErr(a.code.value)))
    case Finished(_) => c
  }

  /** A chunk on the network. */
  datatype Chunk = Chunk(off: nat, body: bytes)

  function RequestFor(u: Upload, k: Chunk): PutRequest
    requires k.body != [] && 0 <= u.size
  {
    PutRequest(u.id, u.token, FormatContentRange(k.off, k.off + |k.body| - 1, u.size), k.body, false)
  }

  /** The chunk a client is sending. */
  function Outgoing(u: Upload, c: Client): Option<Chunk> {
    if c.Sending? && c.off + c.n <= |u.data| then Some(Chunk(c.off, u.data[c.off..c.off + c.n])) else None
  }

  // ---------- a whole call, exchange by exchange ----------

  /** Offset and retry budget only move one way. */
  function Effort(u: Upload, c: Client): (nat, nat) {
    match c
    case Creating => (if u.size > 0 then u.size + 2 else 2, 0)
    case Asking => (if u.size > 0 then u.size + 1 else 1, 1)
    case Sending(off, _, tries) => (if u.size > off then u.size - off else 0, tries)
    case SendingNothing => (1, 0)
    case Finished(_) => (0, 0)
  }

  ghost predicate Busy(u: Upload, c: Client) {
    match c
    case Sending(off, n, tries) => n > 0 && off + n <= u.size && off + n <= |u.data| && 0 < tries <= 3
    case SendingNothing => u.size == 0
    case _ => true
  }

  lemma HearMakesProgress(u: Upload, c: Client, a: Answer)
    requires u.chunk > 0 && Busy(u, c)
    ensures var c' := Hear(u, c, a);
      && Busy(u, c')
      && (c.Finished? || c'.Finished? || Effort(u, c').0 < Effort(u, c).0
          || (Effort(u, c').0 == Effort(u, c).0 && Effort(u, c').1 < Effort(u, c).1))
  {}

  /** The rest of a call from state `c` on, exchange number `i` next: how it ends, and every chunk
      it sends on the way. */
  ghost function Rest(u: Upload, c: Client, answers: nat -> Answer, i: nat): (Option<Failure>, seq<Chunk>)
    requires u.chunk > 0 && Busy(u, c)
    decreases if c.Finished? then 0 else 1, Effort(u, c).0, Effort(u, c).1
  {
    if c.Finished? then (c.failure, [])
    else
      HearMakesProgress(u, c, answers(i));
      var (end, later) := Rest(u, Hear(u, c, answers(i)), answers, i + 1);
      (end, (if Outgoing(u, c).Some? then [Outgoing(u, c).value] else []) + later)
  }

  // ---------- many clients, one relay, one network ----------

  /** What all clients agree on: the drop, its token and the source. */
  datatype Shared = Shared(id: string, token: string, src: bytes)

  /** `sent` and the replies are never forgotten: anything may arrive late, twice or never.
      `answered` holds what the relay replied to which chunk, `reported` the offsets it told. */
  datatype Net = Net(relay: Relay, log: Log, sent: set<Chunk>, answered: set<(Chunk, Reply)>,
                     reported: set<int>, calls: map<nat, (Upload, Client)>)

  datatype NetEvent =
    | Joins(k: nat, u: Upload, cancelled: bool)        // a call of Put begins
    | Emits(k: nat)                                    // the chunk of a call goes (again) onto the network
    | Delivers(chunk: Chunk, kept: nat, torn: bool, now: int, fate: PutFate)  // it reaches the relay, perhaps cut
    | Kills(chunk: Chunk, kept: nat, now: int, wrote: nat)                  // and the relay dies over it
    | Relays(event: Event)                             // anything else the relay does
    | Reports                                          // it answers a meta request
    | Hears(k: nat, answer: Answer)                    // a call gets an answer, or none

  /** A chunk as it arrives: whole, or cut and then torn. */
  function Delivery(sh: Shared, c: Chunk, kept: nat, torn: bool): PutRequest
    requires c.body != []
  {
    PutRequest(sh.id, sh.token, FormatContentRange(c.off, c.off + |c.body| - 1, |sh.src|),
               Clip(c.body, kept), torn || kept < |c.body|)
  }

  function NetStep(h: TokenHash, quota: int64, sh: Shared, w: Net, e: NetEvent): Net {
    match e
    case Joins(k, u, cancelled) => if k in w.calls then w else w.(calls := w.calls[k := (u, Begin(u, cancelled))])
    case Emits(k) =>
      if k in w.calls && Outgoing(w.calls[k].0, w.calls[k].1).Some?
      then w.(sent := w.sent + {Outgoing(w.calls[k].0, w.calls[k].1).value}) else w
    case Delivers(c, kept, torn, now, fate) =>
      if c.body == [] then w
      else
        var e := Puts(Delivery(sh, c, kept, torn), now, fate);
        var (relay, reply) := Step(h, quota, w.relay, e);
        w.(relay := relay, log := Logged(w.log, e, reply),
           answered := w.answered + (if reply.Some? then {(c, reply.value)} else {}))
    case Kills(c, kept, now, wrote) =>
      if c.body == [] then w
      else
        var e := DiesPutting(Delivery(sh, c, kept, true), now, wrote);
        var (relay, reply) := Step(h, quota, w.relay, e);
        w.(relay := relay, log := Logged(w.log, e, reply))
    case Relays(e) =>
      var (relay, reply) := Step(h, quota, w.relay, e);
      w.(relay := relay, log := Logged(w.log, e, reply))
    case Reports =>
      if sh.id in w.relay.metas then w.(reported := w.reported + {w.relay.metas[sh.id].uploaded}) else w
    case Hears(k, a) =>
      if k in w.calls then w.(calls := w.calls[k := (w.calls[k].0, Hear(w.calls[k].0, w.calls[k].1, a))]) else w
  }

  /** A reader holds the source, or a piece of it, or goes on after it. */
  ghost predicate ReadsFrom(data: bytes, src: bytes) {
    forall i :: 0 <= i < |data| && i < |src| ==> data[i] == src[i]
  }

  ghost predicate CallOf(sh: Shared, u: Upload) {
    u.id == sh.id && u.token == sh.token && u.size == |sh.src| && u.chunk > 0 && ReadsFrom(u.data, sh.src)
  }

  predicate Accepts(code: Option<nat>) { code == Some(200) || code == Some(201) || code == Some(206) }

  /** What may happen next. Clients are honest about the source, answers that matter come from the
      relay, and the drop is neither deleted nor expires; nothing else is asked of the network. */
  ghost predicate Possible(h: TokenHash, quota: int64, sh: Shared, w: Net, e: NetEvent) {
    && Live(NetStep(h, quota, sh, w, e).relay, sh.id)
    && match e
       case Joins(_, u, _) => CallOf(sh, u)
       case Delivers(c, _, _, _, _) => c in w.sent
       case Kills(c, _, _, _) => c in w.sent
       case Relays(e) => !((e.Puts? || e.DiesPutting?) && e.put.id == sh.id)
       case Hears(k, a) => k in w.calls && Heard(w, w.calls[k].0, w.calls[k].1, a)
       case _ => true
  }

  ghost predicate Heard(w: Net, u: Upload, c: Client, a: Answer) {
    match c
    case Asking => a.code == Some(200) && a.uploaded.Some? ==> a.uploaded.value in w.reported
    case Sending(_, _, _) =>
      Accepts(a.code) ==> Outgoing(u, c).Some? && exists r :: (Outgoing(u, c).value, r) in w.answered && Code(r) == a.code.value
    case _ => true
  }

  // ---------- the invariant ----------

  ghost predicate Watermark(sh: Shared, relay: Relay, log: Log) {
    && Inv(relay, log, 1) && Live(relay, sh.id) && sh.id in log
    && relay.metas[sh.id].size == |sh.src|
    && 0 <= relay.metas[sh.id].uploaded <= |sh.src|
    && log[sh.id] == sh.src[..relay.metas[sh.id].uploaded]
  }

  ghost predicate ChunkOk(sh: Shared, c: Chunk) {
    c.body != [] && c.off + |c.body| <= |sh.src| && c.body == sh.src[c.off..c.off + |c.body|]
  }

  ghost predicate CallOk(sh: Shared, u: Upload, c: Client, up: int) {
    && CallOf(sh, u) && Busy(u, c)
    && (c.Sending? ==> c.off <= up)
    && !c.SendingNothing?
    && (c == Finished(None) ==> up == |sh.src|)
  }

  ghost predicate NetInv(sh: Shared, w: Net) {
    && Watermark(sh, w.relay, w.log)
    && var up := w.relay.metas[sh.id].uploaded;
    && (forall c :: c in w.sent ==> ChunkOk(sh, c))
    && (forall a :: a in w.answered ==> (Accepts(Some(Code(a.1))) ==> a.0.off + |a.0.body| <= up))
    && (forall n :: n in w.reported ==> n <= up)
    && (forall k :: k in w.calls ==> CallOk(sh, w.calls[k].0, w.calls[k].1, up))
  }

  /** The relay takes a chunk exactly at its watermark and then all of it. */
  lemma StoredChunk(h: TokenHash, sh: Shared, relay: Relay, log: Log, c: Chunk, kept: nat, torn: bool, now: int, fate: PutFate)
    requires Watermark(sh, relay, log) && ChunkOk(sh, c) && |sh.src| < MAX_SIZE
    ensures var q := Delivery(sh, c, kept, torn);
      var (relay', reply) := Put(h, relay, q, now, fate);
      && (Accepts(Some(Code(reply))) ==> reply.Stored?)
      && (reply.Stored? ==> (
           q.body == c.body && c.off == relay.metas[sh.id].uploaded
           && sh.id in relay'.metas && relay'.metas[sh.id].uploaded == c.off + |c.body|))
  {
    hide TrimSpace, ParseContentRange, FormatContentRange, RelayId, TokenOk, WriteAt, Resized;
    InvFacts(relay, log, 1);
    ContentRangeRoundTrip(c.off, c.off + |c.body| - 1, |sh.src|);
    assert FormatContentRange(c.off, c.off + |c.body| - 1, |sh.src|) != "" by { NotEmpty(c.off, c.off + |c.body| - 1, |sh.src|); }
    assert c.body[..|c.body|] == c.body;
  }

  lemma NotEmpty(a: nat, b: nat, c: nat)
    ensures FormatContentRange(a, b, c) != ""
  {
    assert FormatContentRange(a, b, c)[0] == 'b';
  }

  /** Whatever else the relay does while the drop lives, the watermark stays. */
  lemma OtherEventsKeepWatermark(h: TokenHash, quota: int64, sh: Shared, relay: Relay, log: Log, e: Event)
    requires Watermark(sh, relay, log) && |sh.src| < MAX_SIZE
    requires e.Puts? ==> e.put.id != sh.id
    requires Live(Step(h, quota, relay, e).0, sh.id)
    ensures var (relay', reply) := Step(h, quota, relay, e);
      Watermark(sh, relay', Logged(log, e, reply)) && relay'.metas[sh.id].uploaded == relay.metas[sh.id].uploaded
  {
    var (relay', reply) := Step(h, quota, relay, e);
    var log' := Logged(log, e, reply);
    assert log'[sh.id] == log[sh.id] && sh.id in log' by {
      if e.Creates? && e.request.id == sh.id {
        assert !reply.value.Created?;
      }
    }
    hide Inv, Step, Logged;
    StepKeepsInv(h, quota, relay, log, e, 1);
    StepKeepsWatermark(h, quota, relay, log, e, 1, sh.id);
    InvFacts(relay', log', 1);
    InvFacts(relay, log, 1);
  }

  lemma DeliveryKeepsWatermark(h: TokenHash, quota: int64, sh: Shared, relay: Relay, log: Log, c: Chunk, kept: nat, torn: bool, now: int, fate: PutFate)
    requires Watermark(sh, relay, log) && ChunkOk(sh, c) && |sh.src| < MAX_SIZE
    requires Live(Put(h, relay, Delivery(sh, c, kept, torn), now, fate).0, sh.id)
    ensures var e := Puts(Delivery(sh, c, kept, torn), now, fate);
      var (relay', reply) := Step(h, quota, relay, e);
      && Watermark(sh, relay', Logged(log, e, reply)) && reply.Some?
      && relay.metas[sh.id].uploaded <= relay'.metas[sh.id].uploaded
      && (Accepts(Some(Code(reply.value))) ==> c.off + |c.body| <= relay'.metas[sh.id].uploaded)
  {
    hide Inv, Put, Delivery;
    var e := Puts(Delivery(sh, c, kept, torn), now, fate);
    var (relay', reply) := Step(h, quota, relay, e);
    assert e.put.id == sh.id by { DeliveryId(sh, c, kept, torn); }
    StoredChunk(h, sh, relay, log, c, kept, torn, now, fate);
    StepKeepsInv(h, quota, relay, log, e, 1);
    StepKeepsWatermark(h, quota, relay, log, e, 1, sh.id);
    InvFacts(relay', Logged(log, e, reply), 1);
    InvFacts(relay, log, 1);
    var up := relay.metas[sh.id].uploaded;
    if reply.value.Stored? {
      assert sh.src[..up] + c.body == sh.src[..up + |c.body|];
    }
  }

  lemma DeliveryId(sh: Shared, c: Chunk, kept: nat, torn: bool)
    requires c.body != []
    ensures Delivery(sh, c, kept, torn).id == sh.id
  {}

  /** A client that keeps to the answers it may get keeps its place below the watermark. */
  lemma HearKeepsCall(sh: Shared, w: Net, u: Upload, c: Client, a: Answer)
    requires NetInv(sh, w) && 0 < |sh.src|
    requires CallOk(sh, u, c, w.relay.metas[sh.id].uploaded) && Heard(w, u, c, a)
    ensures CallOk(sh, u, Hear(u, c, a), w.relay.metas[sh.id].uploaded)
  {
    hide Inv;
    HearMakesProgress(u, c, a);
    var up := w.relay.metas[sh.id].uploaded;
    if c.Sending? && Accepts(a.code) {
      var k := Outgoing(u, c).value;
      var r :| (k, r) in w.answered && Code(r) == a.code.value;
      assert (k, r).0.off + |(k, r).0.body| <= up;
    }
  }

  lemma WatermarkFits(sh: Shared, relay: Relay, log: Log)
    requires Watermark(sh, relay, log)
    ensures 0 <= relay.metas[sh.id].uploaded <= |sh.src|
  {}

  lemma BeginOk(sh: Shared, u: Upload, cancelled: bool, up: int)
    requires CallOf(sh, u)
    ensures CallOk(sh, u, Begin(u, cancelled), up)
  {}

  /** The chunk a client sends is a piece of the shared source. */
  lemma OutgoingOk(sh: Shared, u: Upload, c: Client, up: int)
    requires CallOk(sh, u, c, up) && Outgoing(u, c).Some?
    ensures ChunkOk(sh, Outgoing(u, c).value)
  {}

  lemma RelayMoves(sh: Shared, w: Net, relay: Relay, log: Log, answered: set<(Chunk, Reply)>)
    requires NetInv(sh, w) && Watermark(sh, relay, log)
    requires w.relay.metas[sh.id].uploaded <= relay.metas[sh.id].uploaded
    requires forall a :: a in answered ==> (Accepts(Some(Code(a.1))) ==> a.0.off + |a.0.body| <= relay.metas[sh.id].uploaded)
    ensures NetInv(sh, w.(relay := relay, log := log, answered := w.answered + answered))
  {
    hide Watermark, ChunkOk, Busy, CallOf, Accepts;
    WatermarkFits(sh, relay, log);
  }

  lemma NetStepKeepsInv(h: TokenHash, quota: int64, sh: Shared, w: Net, e: NetEvent)
    requires NetInv(sh, w) && Possible(h, quota, sh, w, e) && 0 < |sh.src| < MAX_SIZE
    ensures NetInv(sh, NetStep(h, quota, sh, w, e))
    ensures w.relay.metas[sh.id].uploaded <= NetStep(h, quota, sh, w, e).relay.metas[sh.id].uploaded
  {
    hide Watermark, ChunkOk, Step, Logged, Busy, Delivery;
    var w' := NetStep(h, quota, sh, w, e);
    match e
    case Joins(k, u, cancelled) =>
      BeginOk(sh, u, cancelled, w.relay.metas[sh.id].uploaded);
    case Emits(k) =>
      if k in w.calls && Outgoing(w.calls[k].0, w.calls[k].1).Some? {
        OutgoingOk(sh, w.calls[k].0, w.calls[k].1, w.relay.metas[sh.id].uploaded);
      }
    case Delivers(c, kept, torn, now, fate) =>
      if c.body != [] {
        DeliveredLive(h, quota, sh, w.relay, c, kept, torn, now, fate);
        DeliveryKeepsWatermark(h, quota, sh, w.relay, w.log, c, kept, torn, now, fate);
        var e := Puts(Delivery(sh, c, kept, torn), now, fate);
        var (relay, reply) := Step(h, quota, w.relay, e);
        RelayMoves(sh, w, relay, Logged(w.log, e, reply), {(c, reply.value)});
      }
    case Kills(c, kept, now, wrote) =>
      if c.body != [] {
        var e := DiesPutting(Delivery(sh, c, kept, true), now, wrote);
        OtherEventsKeepWatermark(h, quota, sh, w.relay, w.log, e);
        RelayMoves(sh, w, Step(h, quota, w.relay, e).0, Logged(w.log, e, Step(h, quota, w.relay, e).1), {});
        assert w.answered + {} == w.answered;
      }
    case Relays(e) =>
      OtherEventsKeepWatermark(h, quota, sh, w.relay, w.log, e);
      RelayMoves(sh, w, Step(h, quota, w.relay, e).0, Logged(w.log, e, Step(h, quota, w.relay, e).1), {});
      assert w.answered + {} == w.answered;
    case Reports =>
    case Hears(k, a) =>
      HearKeepsCall(sh, w, w.calls[k].0, w.calls[k].1, a);
  }

  lemma DeliveredLive(h: TokenHash, quota: int64, sh: Shared, relay: Relay, c: Chunk, kept: nat, torn: bool, now: int, fate: PutFate)
    requires c.body != []
    ensures Step(h, quota, relay, Puts(Delivery(sh, c, kept, torn), now, fate)).0 == Put(h, relay, Delivery(sh, c, kept, torn), now, fate).0
  {}

  // ---------- the theorems ----------

  function NetRun(h: TokenHash, quota: int64, sh: Shared, w: Net, events: seq<NetEvent>): Net
    decreases |events|
  {
    if events == [] then w else NetRun(h, quota, sh, NetStep(h, quota, sh, w, events[0]), events[1..])
  }

  ghost predicate AllPossible(h: TokenHash, quota: int64, sh: Shared, w: Net, events: seq<NetEvent>)
    decreases |events|
  {
    events == [] ||
    (Possible(h, quota, sh, w, events[0]) && AllPossible(h, quota, sh, NetStep(h, quota, sh, w, events[0]), events[1..]))
  }

  lemma {:induction false} NetRunKeepsInv(h: TokenHash, quota: int64, sh: Shared, w: Net, events: seq<NetEvent>)
    requires NetInv(sh, w) && AllPossible(h, quota, sh, w, events) && 0 < |sh.src| < MAX_SIZE
    ensures NetInv(sh, NetRun(h, quota, sh, w, events))
    decreases |events|
  {
    if events != [] {
      hide NetInv, NetStep, Possible;
      NetStepKeepsInv(h, quota, sh, w, events[0]);
      NetRunKeepsInv(h, quota, sh, NetStep(h, quota, sh, w, events[0]), events[1..]);
    }
  }

  /** Any relay on which the drop has just been created (or holds a prefix of the source), an idle
      network, no calls yet. */
  ghost predicate NetStart(sh: Shared, w: Net) {
    Watermark(sh, w.relay, w.log) && w.sent == {} && w.answered == {} && w.reported == {} && w.calls == map[]
  }

  /** Any number of calls of Put share one source, over a network that loses, delays, repeats and
      tears. In every state they can reach the relay's first UploadedBytes bytes are that prefix of
      the source, and once any call has returned nil all of it is stored. */
  lemma SharedUploadsAreSafe(h: TokenHash, quota: int64, sh: Shared, w: Net, events: seq<NetEvent>)
    requires NetStart(sh, w) && AllPossible(h, quota, sh, w, events) && 0 < |sh.src| < MAX_SIZE
    ensures var w' := NetRun(h, quota, sh, w, events);
      && Live(w'.relay, sh.id)
      && var up, bin := w'.relay.metas[sh.id].uploaded, w'.relay.bins[sh.id];
      && 0 <= up <= |bin| && up <= |sh.src| && bin[..up] == sh.src[..up]
      && ((exists k :: k in w'.calls && w'.calls[k].1 == Finished(None)) ==> sh.src <= bin)
  {
    hide AllPossible, NetRun;
    NetRunKeepsInv(h, quota, sh, w, events);
    var w' := NetRun(h, quota, sh, w, events);
    InvFacts(w'.relay, w'.log, 1);
    assert PayloadOk(w'.relay.metas[sh.id], w'.relay.bins[sh.id], w'.log[sh.id], 1);
    assert sh.src[..|sh.src|] == sh.src;
  }

  /** Creating the drop on a relay in any reachable state gives such a start. */
  lemma CreatedDropStarts(h: TokenHash, quota: int64, stored: int64, relay: Relay, log: Log, q: CreateRequest, now: int, luck: CreateLuck, sh: Shared)
    requires Inv(relay, log, 1) && q.id == sh.id && q.size == |sh.src|
    ensures var (relay', reply) := Create(h, quota, stored, relay, q, now, luck);
      reply.Created? ==> NetStart(sh, Net(relay', log[q.id := []], {}, {}, {}, map[]))
  {
    CreateKeepsInv(h, quota, stored, relay, log, q, now, luck, 1);
  }
}
