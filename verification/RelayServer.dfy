/** The relay server: partial PUTs guarded by an offset watermark, over a directory of payload
    files and records. Each critical section of a handler is one step on `Relay`; module
    RelayHandlers has the handlers as methods that change the fields one by one. */
module RelayServer {
  import opened Bytes
  import opened ContentRange
  import opened Files
  import opened Ids
  import opened Totals

  /** The record of a drop ({id}.meta.json). */
  datatype Meta = Meta(id: string, size: int64, expiry: int, oneTime: bool, tokenHash: string,
                       uploaded: int64, servedFull: bool) {
    predicate Expired(now: int) { now >= expiry }
  }

  /** The data directory and the token index in memory. */
  datatype Relay = Relay(metas: map<string, Meta>, bins: map<string, bytes>, tokens: map<string, string>)

  datatype Reply =
    | Created(token: string)
    | Stored(id: string, uploaded: int, complete: bool)
    | Content(data: bytes)
    | Described(meta: Meta)
    | Deleted
    | OffsetConflict(uploaded: int)
    | Refused(code: nat)

  /** The HTTP status of a reply. */
  function Code(r: Reply): nat {
    match r
    case Created(_) => 201
    case Stored(_, _, _) | Content(_) | Described(_) | Deleted => 200
    case OffsetConflict(_) => 409
    case Refused(code) => code
  }

  type TokenHash = string -> string

  /** Both empty strings are refused before hashing. */
  predicate TokenOk(h: TokenHash, token: string, want: string) {
    token != "" && want != "" && h(token) == want
  }

  /** The int64 sum of two int64 values. */
  function Add64(a: int64, b: int64): int64 {
    if a + b >= I64 then a + b - U64 else if a + b < -I64 then a + b + U64 else a + b
  }

  /** What an int64 counter shows after counting to `n`. */
  function Wrap64(n: nat): int64 { ToInt64(n % U64) }

  ghost function StoredBytes(bins: map<string, bytes>): nat { Total(Sizes(bins)) }

  ghost function Sizes(bins: map<string, bytes>): map<string, nat> { map id | id in bins :: |bins[id]| }

  // ---------- the handlers' critical sections ----------

  datatype CreateRequest = CreateRequest(id: string, size: int64, expiry: Option<int>, oneTime: bool)

  /** What may go wrong beside the request itself: the random source, saving the record, creating
      the payload file (the source answers the last two alike). */
  datatype CreateLuck = CreateLuck(token: Option<string>, saved: bool)

  /** `stored` is what storedBytes() counted before the lock was taken. */
  function Create(h: TokenHash, quota: int64, stored: int64, s: Relay, q: CreateRequest, now: int, luck: CreateLuck): (Relay, Reply)
  {
    if !RelayId(q.id) || q.size <= 0 || q.expiry.None? || now >= q.expiry.value then (s, Refused(400))
    else if quota > 0 && Add64(stored, q.size) > quota then (s, Refused(507))
    else if q.id in s.metas then (s, Refused(409))
    else if luck.token.None? || !luck.saved || q.id in s.bins then (s, Refused(500))
    else
      var m := Meta(q.id, q.size, q.expiry.value, q.oneTime, h(luck.token.value), 0, false);
      (Relay(s.metas[q.id := m], s.bins[q.id := []], s.tokens[q.id := m.tokenHash]), Created(luck.token.value))
  }

  /** deleteLocked: payload, record and token of the drop the record names. */
  function Without(s: Relay, id: string): Relay {
    Relay(s.metas - {id}, s.bins - {id}, s.tokens - {id})
  }

  /** A PUT. `body` is what arrives; `torn` says the connection (or the disk) fails after it. */
  datatype PutRequest = PutRequest(id: string, token: string, range: string, body: bytes, torn: bool)

  /** Where the body goes, or the reply if it is not wanted there. */
  datatype Target = At(off: nat) | Nowhere(reply: Reply)

  function OffsetOf(m: Meta, range: string): (t: Target)
    ensures t.At? ==> t.off == m.uploaded
    ensures t.Nowhere? ==> t.reply == OffsetConflict(m.uploaded) || t.reply == Refused(400)
  {
    var header := TrimSpace(range);
    if header == "" then
      if m.uploaded != 0 then Nowhere(OffsetConflict(m.uploaded)) else At(0)
    else
      match ParseContentRange(header)
      case None => Nowhere(Refused(400))
      case Some(r) =>
        if r.total != m.size then Nowhere(Refused(400))
        else if r.start != m.uploaded then Nowhere(OffsetConflict(m.uploaded))
        else At(r.start)
  }

  /** Everything handlePut checks before it opens the payload file: the record and the offset, or
      the state and reply it ends with. */
  datatype Admission = Admitted(meta: Meta, off: nat) | Turned(relay: Relay, reply: Reply)

  function Admit(h: TokenHash, s: Relay, q: PutRequest, now: int): (a: Admission)
    ensures a.Admitted? ==> q.id in s.metas && a.meta == s.metas[q.id] && q.id in s.bins
    ensures a.Admitted? ==> a.off == a.meta.uploaded && 0 < a.meta.size - a.off
  {
    if !RelayId(q.id) then Turned(s, Refused(400))
    else if q.id !in s.metas then Turned(s, Refused(404))
    else
      var m := s.metas[q.id];
      if !TokenOk(h, q.token, m.tokenHash) then Turned(s, Refused(401))
      else if m.Expired(now) then Turned(Without(s, m.id), Refused(410))
      else
        match OffsetOf(m, q.range)
        case Nowhere(reply) => Turned(s, reply)
        case At(off) =>
          if m.size - off <= 0 then Turned(s, Refused(400))
          else if q.id !in s.bins then Turned(s, Refused(404))
          else Admitted(m, off)
  }

  /** What the file system does to a PUT: open the payload, seek in it, cut it back after an over-long
      body (the source does not look whether that worked), and save the record. */
  datatype PutFate = PutFate(found: bool, sought: bool, cut: bool, saved: bool)

  const FINE := PutFate(true, true, true, true)

  /** The rest of handlePut: stream the body over the payload file from the watermark on, and move
      the watermark only if all of it was wanted and arrived. */
  function StoreBody(s: Relay, id: string, m: Meta, off: nat, body: bytes, torn: bool, fate: PutFate): (Relay, Reply)
    requires id in s.bins && 0 < m.size - off
  {
    var remain := m.size - off;
    var limit := OneMore(remain);
    var data := Clip(body, limit);
    var bin := WriteAt(s.bins[id], off, data);
    if !fate.found then (s, Refused(404))
    else if !fate.sought then (s, Refused(500))
    else if torn && |data| < limit then (WithPayload(s, id, bin), Refused(400))
    else if |data| > remain then (WithPayload(s, id, if fate.cut then Resized(bin, off) else bin), Refused(400))
    else if !fate.saved then (WithPayload(s, id, bin), Refused(500))
    else
      var m' := m.(uploaded := off + |data|);
      (WithPayload(s, id, bin).(metas := s.metas[m.id := m']), Stored(id, m'.uploaded, m'.uploaded == m.size))
  }

  function WithPayload(s: Relay, id: string, bin: bytes): Relay { s.(bins := s.bins[id := bin]) }

  function Put(h: TokenHash, s: Relay, q: PutRequest, now: int, fate: PutFate): (Relay, Reply) {
    match Admit(h, s, q, now)
    case Turned(s', reply) => (s', reply)
    case Admitted(m, off) => StoreBody(s, q.id, m, off, q.body, q.torn, fate)
  }

  /** The first critical section of a GET: what is streamed is the whole payload file. */
  function Open(h: TokenHash, s: Relay, id: string, token: string, now: int): (Relay, Reply) {
    if !RelayId(id) then (s, Refused(400))
    else if id !in s.metas then (s, Refused(404))
    else
      var m := s.metas[id];
      if !TokenOk(h, token, m.tokenHash) then (s, Refused(401))
      else if m.Expired(now) then (Without(s, m.id), Refused(410))
      else if m.oneTime && m.servedFull then (Without(s, m.id), Refused(404))
      else if id !in s.bins then (s, Refused(404))
      else (s, Content(s.bins[id]))
  }

  /** The second critical section of a GET of a one-time drop without a Range, after streaming. */
  function Served(s: Relay, id: string): Relay {
    if id in s.metas && !s.metas[id].servedFull then Without(s, s.metas[id].id) else s
  }

  /** A meta request reads without the lock; only the clean-up of an expired drop takes it. */
  function Describe(h: TokenHash, s: Relay, id: string, token: string, now: int): Reply {
    if !RelayId(id) then Refused(400)
    else if id !in s.metas then Refused(404)
    else if !TokenOk(h, token, s.metas[id].tokenHash) then Refused(401)
    else if s.metas[id].Expired(now) then Refused(410)
    else Described(s.metas[id])
  }

  function Delete(h: TokenHash, s: Relay, id: string, token: string): (Relay, Reply) {
    if !RelayId(id) then (s, Refused(400))
    else if id !in s.metas then (s, Refused(404))
    else if !TokenOk(h, token, s.metas[id].tokenHash) then (s, Refused(401))
    else (Without(s, s.metas[id].id), Deleted)
  }

  predicate Stale(s: Relay, id: string, now: int) {
    id in s.metas && RelayId(id) && s.metas[id].Expired(now)
  }

  /** The sweeper, with the drops in `ahead` still to be looked at: every expired drop behind it is
      gone, nothing else. */
  function SweptPast(s: Relay, ahead: set<string>, now: int): Relay {
    var stale := set id | id in s.metas && id !in ahead && Stale(s, id, now);
    Relay(s.metas - stale, s.bins - stale, s.tokens - stale)
  }

  function Sweep(s: Relay, now: int): Relay { SweptPast(s, {}, now) }

  /** reloadTokens on an empty index. */
  function Mirror(metas: map<string, Meta>): map<string, string> {
    map id | id in metas :: metas[id].tokenHash
  }

  /** The process dies and starts again: the directory stays, the token index is rebuilt. */
  function Restarted(s: Relay): Relay { s.(tokens := Mirror(s.metas)) }

  // ---------- runs ----------

  datatype Event =
    | Creates(request: CreateRequest, stored: int64, now: int, luck: CreateLuck)
    | Puts(put: PutRequest, now: int, fate: PutFate)
    | Opens(id: string, token: string, now: int)
    | Serves(id: string)
    | Expires(id: string)                                   // the clean-up after a meta request
    | Deletes(id: string, token: string)
    | Sweeps(now: int)
    | Restarts
    | DiesCreating(request: CreateRequest, stored: int64, now: int, luck: CreateLuck)
    | DiesPutting(put: PutRequest, now: int, wrote: nat)    // so many bytes of the body reached the disk
    | DiesDeleting(id: string)                              // the payload is gone, the record is not

  function Step(h: TokenHash, quota: int64, s: Relay, e: Event): (Relay, Option<Reply>) {
    match e
    case Creates(q, stored, now, luck) =>
      var (s', reply) := Create(h, quota, stored, s, q, now, luck); (s', Some(reply))
    case Puts(q, now, fate) =>
      var (s', reply) := Put(h, s, q, now, fate); (s', Some(reply))
    case Opens(id, token, now) =>
      var (s', reply) := Open(h, s, id, token, now); (s', Some(reply))
    case Serves(id) => (Served(s, id), None)
    case Expires(id) => (Without(s, id), None)
    case Deletes(id, token) =>
      var (s', reply) := Delete(h, s, id, token); (s', Some(reply))
    case Sweeps(now) => (Sweep(s, now), None)
    case Restarts => (Restarted(s), None)
    case DiesCreating(q, stored, now, luck) =>
      (Restarted(Create(h, quota, stored, s, q, now, luck).0.(bins := s.bins)), None)
    case DiesPutting(q, now, wrote) => (Restarted(DiedPutting(h, s, q, now, wrote)), None)
    case DiesDeleting(id) => (Restarted(s.(bins := s.bins - {id})), None)
  }

  /** The events that may leave a byte too many behind the watermark. */
  predicate MayOverrun(e: Event) { e.DiesPutting? || (e.Puts? && !e.fate.cut) }

  function DiedPutting(h: TokenHash, s: Relay, q: PutRequest, now: int, wrote: nat): Relay {
    match Admit(h, s, q, now)
    case Turned(s', _) => s'
    case Admitted(m, off) =>
      var data := Clip(Clip(q.body, OneMore(m.size - off)), wrote);
      s.(bins := s.bins[q.id := WriteAt(s.bins[q.id], off, data)])
  }

  /** What a drop was given: the bodies of its accepted PUTs, one after the other. */
  type Log = map<string, bytes>

  function Logged(log: Log, e: Event, reply: Option<Reply>): Log {
    match (e, reply)
    case (Creates(q, _, _, _), Some(Created(_))) => log[q.id := []]
    case (Puts(q, _, _), Some(Stored(_, _, _))) => log[q.id := (if q.id in log then log[q.id] else []) + q.body]
    case _ => log
  }

  function Run(h: TokenHash, quota: int64, s: Relay, log: Log, events: seq<Event>): (Relay, Log)
    decreases |events|
  {
    if events == [] then (s, log)
    else
      var (s', reply) := Step(h, quota, s, events[0]);
      Run(h, quota, s', Logged(log, events[0], reply), events[1..])
  }

  // ---------- the invariant ----------

  /** The largest int64: the one announced size whose copy limit overflows. */
  const MAX_SIZE: int := I64 - 1

  ghost predicate Live(s: Relay, id: string) { id in s.metas && id in s.bins }

  ghost predicate RecordOk(m: Meta, id: string) {
    m.id == id && RelayId(id) && 0 <= m.uploaded <= m.size && 0 < m.size && !m.servedFull
  }

  /** The payload file holds at least what the watermark says, at most `slack` bytes more than
      announced, and below the watermark exactly the accepted bodies. */
  ghost predicate PayloadOk(m: Meta, bin: bytes, accepted: bytes, slack: nat) {
    && 0 <= m.uploaded <= |bin| <= m.size + slack
    && if m.size == MAX_SIZE then m.uploaded == 0 else bin[..m.uploaded] == accepted
  }

  ghost predicate DropOk(s: Relay, log: Log, id: string, slack: nat) {
    && (id in s.metas ==> RecordOk(s.metas[id], id) && id in s.tokens && s.tokens[id] == s.metas[id].tokenHash)
    && (id !in s.metas ==> id !in s.bins && id !in s.tokens)
    && (Live(s, id) ==> id in log && PayloadOk(s.metas[id], s.bins[id], log[id], slack))
  }

  ghost predicate Inv(s: Relay, log: Log, slack: nat) { forall id :: DropOk(s, log, id, slack) }

  lemma CreateKeepsInv(h: TokenHash, quota: int64, stored: int64, s: Relay, log: Log, q: CreateRequest, now: int, luck: CreateLuck, slack: nat)
    requires Inv(s, log, slack)
    ensures var (s', reply) := Create(h, quota, stored, s, q, now, luck);
      && Inv(s', if reply.Created? then log[q.id := []] else log, slack)
      && Inv(Restarted(s'.(bins := s.bins)), log, slack)
  {
    hide RelayId;
    var (s', reply) := Create(h, quota, stored, s, q, now, luck);
    var log' := if reply.Created? then log[q.id := []] else log;
    forall id
      ensures DropOk(s', log', id, slack) && DropOk(Restarted(s'.(bins := s.bins)), log, id, slack)
    {
      assert DropOk(s, log, id, slack);
      assert DropOk(s, log, q.id, slack);
    }
  }

  lemma WithoutKeepsInv(s: Relay, log: Log, id: string, slack: nat)
    requires Inv(s, log, slack)
    ensures Inv(Without(s, id), log, slack)
    ensures Inv(Restarted(s.(bins := s.bins - {id})), log, slack)
    ensures Inv(Restarted(s), log, slack)
  {
    forall other
      ensures DropOk(Without(s, id), log, other, slack)
      ensures DropOk(Restarted(s.(bins := s.bins - {id})), log, other, slack)
      ensures DropOk(Restarted(s), log, other, slack)
    {
      assert DropOk(s, log, other, slack);
    }
  }

  lemma SweepKeepsInv(s: Relay, log: Log, now: int, slack: nat)
    requires Inv(s, log, slack)
    ensures Inv(Sweep(s, now), log, slack)
  {
    forall id
      ensures DropOk(Sweep(s, now), log, id, slack)
    {
      assert DropOk(s, log, id, slack);
    }
  }

  /** Changing the payload and the watermark of one drop. */
  lemma StoreKeepsInv(s: Relay, log: Log, id: string, m: Meta, bin: bytes, accepted: bytes, slack: nat)
    requires Inv(s, log, slack) && Live(s, id)
    requires m.size == s.metas[id].size && m.tokenHash == s.metas[id].tokenHash && RecordOk(m, id)
    requires PayloadOk(m, bin, accepted, slack)
    ensures Inv(Relay(s.metas[id := m], s.bins[id := bin], s.tokens), log[id := accepted], slack)
  {
    hide RecordOk, PayloadOk;
    var s', log' := Relay(s.metas[id := m], s.bins[id := bin], s.tokens), log[id := accepted];
    forall other
      ensures DropOk(s', log', other, slack)
    {
      assert DropOk(s, log, other, slack);
    }
  }

  /** Writing from the watermark on leaves what is below it, leaves no gap, and stays within what
      the copy limit allows. */
  lemma WriteFromWatermark(m: Meta, bin: bytes, accepted: bytes, slack: nat, data: bytes)
    requires 0 < m.size - m.uploaded && PayloadOk(m, bin, accepted, slack)
    requires |data| <= OneMore(m.size - m.uploaded)
    ensures var b := WriteAt(bin, m.uploaded, data);
      && |b| >= m.uploaded + |data| && b[..m.uploaded] == bin[..m.uploaded] && b[m.uploaded..m.uploaded + |data|] == data
      && (slack >= 1 ==> PayloadOk(m, b, accepted, slack))
      && (|data| <= m.size - m.uploaded ==> PayloadOk(m, b, accepted, slack))
      && PayloadOk(m, Resized(b, m.uploaded), accepted, slack)
  {
    var b := WriteAt(bin, m.uploaded, data);
    assert Resized(b, m.uploaded)[..m.uploaded] == b[..m.uploaded] == bin[..m.uploaded];
  }

  lemma Grown(m: Meta, b: bytes, accepted: bytes, slack: nat, data: bytes, body: bytes)
    requires 0 <= m.uploaded && 0 < m.size - m.uploaded && PayloadOk(m, b, accepted, slack)
    requires |data| <= m.size - m.uploaded && m.uploaded + |data| <= |b| && b[m.uploaded..m.uploaded + |data|] == data
    requires if m.size == MAX_SIZE then data == [] else data == body
    ensures m.size != MAX_SIZE ==> PayloadOk(m.(uploaded := m.uploaded + |data|), b, accepted + body, slack)
    ensures m.size == MAX_SIZE ==> PayloadOk(m.(uploaded := m.uploaded + |data|), b, accepted + body, slack)
  {
    var n := m.uploaded + |data|;
    assert b[..n] == b[..m.uploaded] + b[m.uploaded..n];
  }

  lemma PutKeepsInv(h: TokenHash, s: Relay, log: Log, q: PutRequest, now: int, fate: PutFate, slack: nat)
    requires Inv(s, log, slack) && (!fate.cut ==> slack >= 1)
    ensures var (s', reply) := Put(h, s, q, now, fate);
      Inv(s', if reply.Stored? then log[q.id := (if q.id in log then log[q.id] else []) + q.body] else log, slack)
  {
    hide OffsetOf, RelayId, TokenOk, PayloadOk, RecordOk, StoreBody;
    assert DropOk(s, log, q.id, slack);
    match Admit(h, s, q, now)
    case Turned(s', _) =>
      if s' != s {
        WithoutKeepsInv(s, log, s.metas[q.id].id, slack);
      }
    case Admitted(m, off) =>
      RecordFacts(m, q.id);
      StoreBodyKeepsInv(s, log, q.id, q.body, q.torn, fate, slack);
  }

  lemma StoreBodyKeepsInv(s: Relay, log: Log, id: string, body: bytes, torn: bool, fate: PutFate, slack: nat)
    requires Inv(s, log, slack) && Live(s, id) && 0 < s.metas[id].size - s.metas[id].uploaded && 0 <= s.metas[id].uploaded
    requires !fate.cut ==> slack >= 1
    ensures var (s', reply) := StoreBody(s, id, s.metas[id], s.metas[id].uploaded, body, torn, fate);
      Inv(s', if reply.Stored? then log[id := (if id in log then log[id] else []) + body] else log, slack)
  {
    hide PayloadOk, WriteAt, Resized, RecordOk, Inv;
    var m, off := s.metas[id], s.metas[id].uploaded;
    LiveFacts(s, log, id, slack);
    var data := Clip(body, OneMore(m.size - off));
    var bin := WriteAt(s.bins[id], off, data);
    WriteFromWatermark(m, s.bins[id], log[id], slack, data);
    var (s', reply) := StoreBody(s, id, m, off, body, torn, fate);
    if reply.Stored? {
      Grown(m, bin, log[id], slack, data, body);
      StoreKeepsInv(s, log, id, m.(uploaded := off + |data|), bin, log[id] + body, slack);
    } else if s' != s {
      PayloadKeepsInv(s, log, id, s'.bins[id], slack);
    }
  }

  lemma LiveFacts(s: Relay, log: Log, id: string, slack: nat)
    requires Inv(s, log, slack) && Live(s, id)
    ensures var m := s.metas[id];
      && m.id == id && 0 <= m.uploaded <= m.size && id in log && PayloadOk(m, s.bins[id], log[id], slack)
      && forall u: int64 :: 0 <= u <= m.size ==> RecordOk(m.(uploaded := u), id)
  {
    assert DropOk(s, log, id, slack);
  }

  /** Changing the payload alone. */
  lemma PayloadKeepsInv(s: Relay, log: Log, id: string, bin: bytes, slack: nat)
    requires Inv(s, log, slack) && Live(s, id) && id in log && PayloadOk(s.metas[id], bin, log[id], slack)
    ensures Inv(WithPayload(s, id, bin), log, slack)
  {
    hide RecordOk, PayloadOk;
    assert DropOk(s, log, id, slack);
    assert log[id := log[id]] == log && s.metas[id := s.metas[id]] == s.metas;
    StoreKeepsInv(s, log, id, s.metas[id], bin, log[id], slack);
  }

  lemma RecordFacts(m: Meta, id: string)
    requires RecordOk(m, id)
    ensures m.id == id && 0 <= m.uploaded <= m.size
    ensures forall u: int64 :: 0 <= u <= m.size ==> RecordOk(m.(uploaded := u), id)
  {}

  lemma DiedPuttingKeepsInv(h: TokenHash, s: Relay, log: Log, q: PutRequest, now: int, wrote: nat, slack: nat)
    requires Inv(s, log, slack) && slack >= 1
    ensures Inv(Restarted(DiedPutting(h, s, q, now, wrote)), log, slack)
  {
    hide OffsetOf, RelayId, TokenOk, WriteAt, RecordOk;
    assert DropOk(s, log, q.id, slack);
    var s' := DiedPutting(h, s, q, now, wrote);
    match Admit(h, s, q, now) {
    case Turned(_, _) =>
      if s' != s {
        WithoutKeepsInv(s, log, s.metas[q.id].id, slack);
      }
    case Admitted(m, off) =>
      var data := Clip(Clip(q.body, OneMore(m.size - off)), wrote);
      RecordFacts(m, q.id);
      DiedPayload(m, s.bins[q.id], log[q.id], slack, data);
      assert log[q.id := log[q.id]] == log && s.metas[q.id := m] == s.metas;
      StoreKeepsInv(s, log, q.id, m, s'.bins[q.id], log[q.id], slack);
    }
    WithoutKeepsInv(s', log, "", slack);
  }

  /** A cut body may leave one byte too many behind, and never one below the watermark changed. */
  lemma DiedPayload(m: Meta, bin: bytes, accepted: bytes, slack: nat, data: bytes)
    requires 0 < m.size - m.uploaded && PayloadOk(m, bin, accepted, slack) && slack >= 1
    requires |data| <= OneMore(m.size - m.uploaded)
    ensures PayloadOk(m, WriteAt(bin, m.uploaded, data), accepted, slack)
  {
    var b := WriteAt(bin, m.uploaded, data);
    assert b[..m.uploaded] == bin[..m.uploaded];
  }

  lemma StepKeepsInv(h: TokenHash, quota: int64, s: Relay, log: Log, e: Event, slack: nat)
    requires Inv(s, log, slack) && (MayOverrun(e) ==> slack >= 1)
    ensures var (s', reply) := Step(h, quota, s, e);
      Inv(s', Logged(log, e, reply), slack)
  {
    hide Create, Put, Sweep, DiedPutting, Restarted, Without, DropOk, Inv;
    match e
    case Creates(q, stored, now, luck) => CreateKeepsInv(h, quota, stored, s, log, q, now, luck, slack);
    case Puts(q, now, fate) => PutKeepsInv(h, s, log, q, now, fate, slack);
    case Opens(id, _, _) => WithoutNamed(s, log, id, slack);
    case Serves(id) => WithoutNamed(s, log, id, slack);
    case Expires(id) => WithoutKeepsInv(s, log, id, slack);
    case Deletes(id, _) => WithoutNamed(s, log, id, slack);
    case Sweeps(now) => SweepKeepsInv(s, log, now, slack);
    case Restarts => WithoutKeepsInv(s, log, "", slack);
    case DiesCreating(q, stored, now, luck) => CreateKeepsInv(h, quota, stored, s, log, q, now, luck, slack);
    case DiesPutting(q, now, wrote) => DiedPuttingKeepsInv(h, s, log, q, now, wrote, slack);
    case DiesDeleting(id) => WithoutKeepsInv(s, log, id, slack);
  }

  lemma WithoutNamed(s: Relay, log: Log, id: string, slack: nat)
    requires Inv(s, log, slack)
    ensures id in s.metas ==> Inv(Without(s, s.metas[id].id), log, slack)
  {
    if id in s.metas {
      WithoutKeepsInv(s, log, s.metas[id].id, slack);
    }
  }

  // ---------- the theorems ----------

  lemma {:induction false} RunKeepsInv(h: TokenHash, quota: int64, s: Relay, log: Log, events: seq<Event>, slack: nat)
    requires Inv(s, log, slack)
    requires (exists i :: 0 <= i < |events| && MayOverrun(events[i])) ==> slack >= 1
    ensures var (s', log') := Run(h, quota, s, log, events);
      Inv(s', log', slack)
    decreases |events|
  {
    if events != [] {
      hide Inv, Logged, Step;
      var (s', reply) := Step(h, quota, s, events[0]);
      assert MayOverrun(events[0]) ==> slack >= 1;
      StepKeepsInv(h, quota, s, log, events[0], slack);
      assert forall i :: 0 <= i < |events| - 1 ==> events[1..][i] == events[i + 1];
      RunKeepsInv(h, quota, s', Logged(log, events[0], reply), events[1..], slack);
    }
  }

  /** Over every run from an empty directory, with torn and over-long bodies, failed saves, deletions,
      expiry and deaths of the process anywhere, every live drop keeps
      0 <= UploadedBytes <= |payload| <= SizeBytes (one byte more at most if the process may die while
      it writes a body, or a roll-back may fail), its payload below the watermark is the concatenation of
      the accepted bodies, and the token index mirrors the records. The exception is the size 2^63-1: its
      copy limit wraps around, bodies are accepted and none of their bytes is stored. */
  lemma RunsAreSafe(h: TokenHash, quota: int64, events: seq<Event>)
    ensures var (s, log) := Run(h, quota, EMPTY, map[], events);
      && s.tokens == Mirror(s.metas)
      && s.bins.Keys <= s.metas.Keys
      && (forall id :: id in s.metas ==> s.metas[id].id == id && !s.metas[id].servedFull)
      && forall id :: Live(s, id) ==>
          var m, bin := s.metas[id], s.bins[id];
          && 0 <= m.uploaded <= |bin| <= m.size + 1 && m.uploaded <= m.size
          && ((forall i :: 0 <= i < |events| ==> !MayOverrun(events[i])) ==> |bin| <= m.size)
          && id in log && (m.size != MAX_SIZE ==> bin[..m.uploaded] == log[id])
          && (m.size == MAX_SIZE ==> bin[..m.uploaded] == [])
  {
    hide Run, Inv;
    var (s, log) := Run(h, quota, EMPTY, map[], events);
    EmptyIsSafe();
    RunKeepsInv(h, quota, EMPTY, map[], events, 1);
    if forall i :: 0 <= i < |events| ==> !MayOverrun(events[i]) {
      RunKeepsInv(h, quota, EMPTY, map[], events, 0);
      InvFacts(s, log, 0);
    }
    InvFacts(s, log, 1);
  }

  lemma InvFacts(s: Relay, log: Log, slack: nat)
    requires Inv(s, log, slack)
    ensures s.tokens == Mirror(s.metas) && s.bins.Keys <= s.metas.Keys
    ensures forall id :: Live(s, id) ==> id in log && PayloadOk(s.metas[id], s.bins[id], log[id], slack)
    ensures forall id :: id in s.metas ==> RecordOk(s.metas[id], id)
  {
    forall id
      ensures id in s.metas <==> id in s.tokens
      ensures id in s.metas ==> s.tokens[id] == s.metas[id].tokenHash && RecordOk(s.metas[id], id)
      ensures id in s.bins ==> id in s.metas
      ensures Live(s, id) ==> id in log && PayloadOk(s.metas[id], s.bins[id], log[id], slack)
    {
      assert DropOk(s, log, id, slack);
    }
  }

  const EMPTY := Relay(map[], map[], map[])

  lemma EmptyIsSafe()
    ensures Inv(EMPTY, map[], 0) && Inv(EMPTY, map[], 1)
  {}

  // ---------- what does not change ----------

  /** The drop an event works on; the clock and the process work on all of them. */
  predicate Concerns(e: Event, id: string) {
    match e
    case Creates(q, _, _, _) => q.id == id
    case Puts(q, _, _) => q.id == id
    case Opens(i, _, _) => i == id
    case Serves(i) => i == id
    case Expires(i) => i == id
    case Deletes(i, _) => i == id
    case Sweeps(_) => true
    case Restarts => false
    case DiesCreating(q, _, _, _) => q.id == id
    case DiesPutting(q, _, _) => q.id == id
    case DiesDeleting(i) => i == id
  }

  ghost predicate SameDrop(s: Relay, s': Relay, id: string) {
    && (id in s.metas <==> id in s'.metas) && (id in s.metas ==> s'.metas[id] == s.metas[id])
    && (id in s.bins <==> id in s'.bins) && (id in s.bins ==> s'.bins[id] == s.bins[id])
  }

  /** A request for one drop leaves the record and the payload of every other alone. */
  lemma OthersAreUntouched(h: TokenHash, quota: int64, s: Relay, log: Log, e: Event, slack: nat, id: string)
    requires Inv(s, log, slack) && !Concerns(e, id)
    ensures SameDrop(s, Step(h, quota, s, e).0, id)
  {
    hide Inv, Create, Put, DiedPutting, RelayId, TokenOk;
    InvFacts(s, log, slack);
    if e.Puts? || e.DiesPutting? {
      PutTouches(h, s, e.put, e.now, if e.Puts? then e.fate else FINE, if e.Puts? then 0 else e.wrote, id);
    } else if e.Creates? || e.DiesCreating? {
      CreateTouches(h, quota, e.stored, s, e.request, e.now, e.luck, id);
    } else {
      hide Restarted, SameDrop;
      WithoutTouches(s, id);
    }
  }

  lemma WithoutTouches(s: Relay, id: string)
    ensures SameDrop(s, s, id) && SameDrop(s, Restarted(s), id)
    ensures forall i :: i != id ==> SameDrop(s, Without(s, i), id) && SameDrop(s, Restarted(s.(bins := s.bins - {i})), id)
  {}

  lemma CreateTouches(h: TokenHash, quota: int64, stored: int64, s: Relay, q: CreateRequest, now: int, luck: CreateLuck, id: string)
    requires id != q.id
    ensures var s' := Create(h, quota, stored, s, q, now, luck).0;
      SameDrop(s, s', id) && SameDrop(s, Restarted(s'.(bins := s.bins)), id)
  {
    hide RelayId;
  }

  lemma PutTouches(h: TokenHash, s: Relay, q: PutRequest, now: int, fate: PutFate, wrote: nat, id: string)
    requires id != q.id && forall i :: i in s.metas ==> s.metas[i].id == i
    ensures SameDrop(s, Put(h, s, q, now, fate).0, id) && SameDrop(s, DiedPutting(h, s, q, now, wrote), id)
  {
    hide OffsetOf, RelayId, TokenOk, WriteAt, Resized, OneMore;
  }

  /** A body is written at the watermark, which is never beyond the end of the payload: no write
      leaves a gap. */
  lemma WritesLeaveNoGap(h: TokenHash, s: Relay, log: Log, q: PutRequest, now: int, slack: nat)
    requires Inv(s, log, slack)
    ensures var a := Admit(h, s, q, now);
      a.Admitted? ==> a.off == s.metas[q.id].uploaded <= |s.bins[q.id]|
  {
    hide Inv, OffsetOf, RelayId, TokenOk;
    InvFacts(s, log, slack);
  }

  /** No step changes a byte below the watermark of a drop that is there before and after it, and
      none moves the watermark down. Every write of a PUT starts at the watermark. */
  lemma StepKeepsWatermark(h: TokenHash, quota: int64, s: Relay, log: Log, e: Event, slack: nat, id: string)
    requires Inv(s, log, slack) && Live(s, id)
    ensures var s' := Step(h, quota, s, e).0;
      Live(s', id) ==> Extends(s, s', id)
  {
    var s' := Step(h, quota, s, e).0;
    if Live(s', id) {
      hide Inv, Put, DiedPutting, RelayId, TokenOk, PayloadOk;
      LiveFacts(s, log, id, slack);
      UpToWatermark(s.metas[id], s.bins[id], log[id], slack);
      if !Concerns(e, id) {
        OthersAreUntouched(h, quota, s, log, e, slack, id);
      } else if e.Puts? {
        PutExtends(h, s, log, e.put, e.now, e.fate, slack);
      } else if e.DiesPutting? {
        DiedExtends(h, s, log, e.put, e.now, e.wrote, slack);
      }
    }
  }

  lemma UpToWatermark(m: Meta, bin: bytes, accepted: bytes, slack: nat)
    requires PayloadOk(m, bin, accepted, slack)
    ensures 0 <= m.uploaded <= |bin|
  {}

  ghost predicate Extends(s: Relay, s': Relay, id: string)
    requires Live(s, id) && Live(s', id)
  {
    var m, m' := s.metas[id], s'.metas[id];
    && m' == m.(uploaded := m'.uploaded)
    && 0 <= m.uploaded <= m'.uploaded
    && m.uploaded <= |s.bins[id]| && m.uploaded <= |s'.bins[id]|
    && s'.bins[id][..m.uploaded] == s.bins[id][..m.uploaded]
  }

  lemma PutExtends(h: TokenHash, s: Relay, log: Log, q: PutRequest, now: int, fate: PutFate, slack: nat)
    requires Inv(s, log, slack) && Live(s, q.id) && Live(Put(h, s, q, now, fate).0, q.id)
    ensures Extends(s, Put(h, s, q, now, fate).0, q.id)
  {
    hide Inv, OffsetOf, RelayId, TokenOk, WriteAt;
    InvFacts(s, log, slack);
    var a := Admit(h, s, q, now);
    if a.Admitted? {
      var data := Clip(q.body, OneMore(a.meta.size - a.off));
      WriteFromWatermark(a.meta, s.bins[q.id], log[q.id], slack, data);
    }
  }

  lemma DiedExtends(h: TokenHash, s: Relay, log: Log, q: PutRequest, now: int, wrote: nat, slack: nat)
    requires Inv(s, log, slack) && Live(s, q.id) && Live(DiedPutting(h, s, q, now, wrote), q.id)
    ensures Extends(s, DiedPutting(h, s, q, now, wrote), q.id)
  {
    hide Inv, OffsetOf, RelayId, TokenOk, WriteAt;
    InvFacts(s, log, slack);
    var a := Admit(h, s, q, now);
    if a.Admitted? {
      var data := Clip(Clip(q.body, OneMore(a.meta.size - a.off)), wrote);
      WriteFromWatermark(a.meta, s.bins[q.id], log[q.id], slack, data);
    }
  }

  /** `id` is there before, between and after the events. */
  ghost predicate StaysLive(h: TokenHash, quota: int64, s: Relay, events: seq<Event>, id: string)
    decreases |events|
  {
    Live(s, id) && (events != [] ==> StaysLive(h, quota, Step(h, quota, s, events[0]).0, events[1..], id))
  }

  /** Bytes below the watermark never change until the drop is deleted. */
  lemma {:induction false} WatermarkBytesNeverChange(h: TokenHash, quota: int64, s: Relay, log: Log, events: seq<Event>, slack: nat, id: string)
    requires Inv(s, log, slack) && slack >= 1 && StaysLive(h, quota, s, events, id)
    ensures var s' := Run(h, quota, s, log, events).0;
      Live(s', id) && Extends(s, s', id)
    decreases |events|
  {
    hide Inv, Step, Logged;
    InvFacts(s, log, slack);
    if events != [] {
      var (s1, reply) := Step(h, quota, s, events[0]);
      StepKeepsInv(h, quota, s, log, events[0], slack);
      StepKeepsWatermark(h, quota, s, log, events[0], slack, id);
      var log1 := Logged(log, events[0], reply);
      WatermarkBytesNeverChange(h, quota, s1, log1, events[1..], slack, id);
      ExtendsTransitive(s, s1, Run(h, quota, s1, log1, events[1..]).0, id);
    }
  }

  lemma ExtendsTransitive(s: Relay, s1: Relay, s2: Relay, id: string)
    requires Live(s, id) && Live(s1, id) && Live(s2, id) && Extends(s, s1, id) && Extends(s1, s2, id)
    ensures Extends(s, s2, id)
  {
    var n := s.metas[id].uploaded;
    assert s2.bins[id][..n] == s2.bins[id][..s1.metas[id].uploaded][..n];
  }

  /** Without the drop's token nothing is served, stored or deleted, and nothing changes; with it,
      an expired drop is deleted instead of being served or stored to. */
  lemma NothingWithoutTheToken(h: TokenHash, s: Relay, log: Log, slack: nat, q: PutRequest, now: int, fate: PutFate)
    requires Inv(s, log, slack)
    ensures var held := q.id in s.metas && TokenOk(h, q.token, s.metas[q.id].tokenHash);
      var gone := held && s.metas[q.id].Expired(now);
      var put, get, del := Put(h, s, q, now, fate), Open(h, s, q.id, q.token, now), Delete(h, s, q.id, q.token);
      && (!held ==> put.0 == get.0 == del.0 == s && put.1.Refused? && get.1.Refused? && del.1.Refused?
                    && Describe(h, s, q.id, q.token, now).Refused?)
      && (gone ==> put == get == (Without(s, q.id), Refused(410)) && Describe(h, s, q.id, q.token, now) == Refused(410))
      && (held ==> del == (Without(s, q.id), Deleted))
  {
    hide Inv, OffsetOf, RelayId, TokenOk, StoreBody;
    InvFacts(s, log, slack);
    if q.id in s.metas {
      assert RelayId(q.id) by { ValidRecord(s.metas[q.id], q.id); }
    }
  }

  lemma ValidRecord(m: Meta, id: string)
    requires RecordOk(m, id)
    ensures RelayId(id)
  {}

  /** A GET streams the accepted bodies first and at most one byte more than announced. Of a complete
      drop it streams exactly the accepted bodies if and only if the payload has the announced size. */
  lemma GetServesTheAcceptedBodies(h: TokenHash, s: Relay, log: Log, id: string, token: string, now: int)
    requires Inv(s, log, 1) && id in s.metas && s.metas[id].size != MAX_SIZE
    ensures var (s', reply) := Open(h, s, id, token, now);
      var m := s.metas[id];
      reply.Content? ==>
        && id in log && log[id] <= reply.data && |reply.data| <= m.size + 1
        && (m.uploaded == m.size ==> (reply.data == log[id] <==> |reply.data| == m.size))
  {
    hide Inv;
    InvFacts(s, log, 1);
    if Live(s, id) {
      var m, bin := s.metas[id], s.bins[id];
      assert bin[..m.uploaded] == log[id];
      assert bin[..|bin|] == bin;
    }
  }

  /** So if no death in a body and no failed roll-back occurred, a complete drop is served exactly. */
  lemma CompleteDropsAreServedExactly(h: TokenHash, quota: int64, events: seq<Event>, id: string, token: string, now: int)
    requires forall i :: 0 <= i < |events| ==> !MayOverrun(events[i])
    ensures var (s, log) := Run(h, quota, EMPTY, map[], events);
      var reply := Open(h, s, id, token, now).1;
      reply.Content? && s.metas[id].size != MAX_SIZE ==>
        id in log && log[id] <= reply.data && (s.metas[id].uploaded == s.metas[id].size ==> reply.data == log[id])
  {
    var (s, log) := Run(h, quota, EMPTY, map[], events);
    EmptyIsSafe();
    RunKeepsInv(h, quota, EMPTY, map[], events, 0);
    hide Run, Inv;
    InvFacts(s, log, 0);
    if Live(s, id) && s.metas[id].size != MAX_SIZE {
      var m, bin := s.metas[id], s.bins[id];
      assert bin[..m.uploaded] == log[id];
      assert bin[..|bin|] == bin;
    }
  }

  // ---------- the exceptions, reached ----------

  /** The events of a drop "a" of `size` bytes that is announced at time 0 and expires at 10. */
  function Announced(size: int64): Event {
    Creates(CreateRequest("a", size, Some(10), false), 0, 0, CreateLuck(Some("t"), true))
  }

  lemma AnnouncedDrop(h: TokenHash, size: int64)
    requires size > 0 && h("t") != ""
    ensures Step(h, 0, EMPTY, Announced(size)) ==
      (Relay(map["a" := Meta("a", size, 10, false, h("t"), 0, false)], map["a" := []], map["a" := h("t")]), Some(Created("t")))
  {}

  /** A death in the middle of an over-long body leaves a byte too many behind the watermark, and
      handlePut opens the payload without cutting it: the drop is then completed, and a GET streams a
      byte that no accepted PUT brought. */
  lemma DeathCanSpoilACompleteDrop(h: TokenHash)
    requires h("t") != ""
    ensures var events := [Announced(2), DiesPutting(PutRequest("a", "t", "", [1, 2, 3], false), 1, 3),
                           Puts(PutRequest("a", "t", "", [1, 2], false), 2, FINE)];
      var (s, log) := Run(h, 0, EMPTY, map[], events);
      && "a" in s.metas && s.metas["a"].uploaded == s.metas["a"].size == 2
      && "a" in log && log["a"] == [1, 2] && Open(h, s, "a", "t", 3).1 == Content([1, 2, 3])
  {
    var torn, whole := PutRequest("a", "t", "", [1, 2, 3], false), PutRequest("a", "t", "", [1, 2], false);
    var e1, e2, e3 := Announced(2), DiesPutting(torn, 1, 3), Puts(whole, 2, FINE);
    var s1 := Step(h, 0, EMPTY, e1).0;
    AnnouncedDrop(h, 2);
    var m := s1.metas["a"];
    assert Admit(h, s1, torn, 1) == Admitted(m, 0);
    assert Clip(Clip([1, 2, 3], OneMore(2)), 3) == [1, 2, 3] && WriteAt([], 0, [1, 2, 3]) == [1, 2, 3];
    var s2 := Step(h, 0, s1, e2).0;
    assert s2.metas == s1.metas && s2.bins["a"] == [1, 2, 3];
    assert Admit(h, s2, whole, 2) == Admitted(m, 0);
    assert Clip([1, 2], OneMore(2)) == [1, 2] && WriteAt([1, 2, 3], 0, [1, 2]) == [1, 2, 3];
    var (s3, reply) := Step(h, 0, s2, e3);
    assert s3.metas["a"] == m.(uploaded := 2) && s3.bins["a"] == [1, 2, 3] && reply == Some(Stored("a", 2, true));
    Run3(h, 0, EMPTY, map[], e1, e2, e3);
  }

  /** A drop announced with 2^63-1 bytes accepts a body and stores none of it. */
  lemma LargestDropStoresNothing(h: TokenHash)
    requires h("t") != ""
    ensures var put := Puts(PutRequest("a", "t", "", [1], false), 1, FINE);
      var (s, log) := Run(h, 0, EMPTY, map[], [Announced(MAX_SIZE), put, Restarts]);
      && Step(h, 0, Step(h, 0, EMPTY, Announced(MAX_SIZE)).0, put).1 == Some(Stored("a", 0, false))
      && "a" in s.bins && s.bins["a"] == [] && "a" in log && log["a"] == [1]
  {
    var q := PutRequest("a", "t", "", [1], false);
    var s1 := Step(h, 0, EMPTY, Announced(MAX_SIZE)).0;
    AnnouncedDrop(h, MAX_SIZE);
    assert Admit(h, s1, q, 1) == Admitted(s1.metas["a"], 0);
    assert Clip([1], 0) == [] && WriteAt([], 0, []) == [];
    Run3(h, 0, EMPTY, map[], Announced(MAX_SIZE), Puts(q, 1, FINE), Restarts);
  }

  lemma Run3(h: TokenHash, quota: int64, s: Relay, log: Log, a: Event, b: Event, c: Event)
    ensures var (s1, r1) := Step(h, quota, s, a);
      var (s2, r2) := Step(h, quota, s1, b);
      var (s3, r3) := Step(h, quota, s2, c);
      Run(h, quota, s, log, [a, b, c]) == (s3, Logged(Logged(Logged(log, a, r1), b, r2), c, r3))
  {
    hide Step, Logged;
    var (s1, r1) := Step(h, quota, s, a);
    var (s2, r2) := Step(h, quota, s1, b);
    var (s3, r3) := Step(h, quota, s2, c);
    var log1 := Logged(log, a, r1);
    var log2 := Logged(log1, b, r2);
    assert [a, b, c][1..] == [b, c] && [b, c][1..] == [c] && [c][1..] == [];
    assert Run(h, quota, s, log, [a, b, c]) == Run(h, quota, s1, log1, [b, c]);
    assert Run(h, quota, s1, log1, [b, c]) == Run(h, quota, s2, log2, [c]);
    assert Run(h, quota, s2, log2, [c]) == Run(h, quota, s3, Logged(log2, c, r3), []);
  }
}
