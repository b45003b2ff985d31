/** The drop manager: Create, Retrieve, Revoke and Status over a store, the manifests and statuses in
    memory, and the rows of the database. Module DropManager has the same as a class. */
module Drops {
  import opened Bytes
  import opened Primitives
  import opened Ids
  import opened Gd01
  import opened Access
  import Stores

  datatype Status =
    | PREPARING | ENCRYPTING | UPLOADING | READY | DELIVERED | RETRIEVED | VERIFIED | EXPIRED | REVOKED | FAILED

  /** The access fields; an absent one is empty. */
  datatype Lock = Lock(wrapped: bytes, ephemPub: bytes, salt: bytes)

  datatype Manifest = Manifest(id: string, mode: string, expiresAt: int, plainHash: Option<bytes>, lock: Lock, oneTime: bool)

  /** A row of the drops table. */
  datatype Row = Row(status: Status, verified: bool)

  datatype State = State(manifests: map<string, Manifest>, statuses: map<string, Status>, store: Stores.Store, rows: map<string, Row>)

  /** `hasDb`: a database is attached; `ghostly`: ghost mode. */
  datatype Config = Config(suite: Suite, hasDb: bool, ghostly: bool, chunk: nat) {
    predicate Persists() { hasDb && !ghostly }
  }

  datatype Error = BadId | Trouble | NotFound | Expired | NoKey | Cancelled | StoreFailed | Undecryptable | HashMismatch

  // ---------- statuses ----------

  /** UPDATE of a row that is not there does nothing. */
  function UpdateStatus(rows: map<string, Row>, id: string, st: Status): map<string, Row> {
    if id in rows then rows[id := rows[id].(status := st)] else rows
  }

  function SetStatus(cfg: Config, s: State, id: string, st: Status): State {
    s.(statuses := s.statuses[id := st], rows := if cfg.Persists() then UpdateStatus(s.rows, id, st) else s.rows)
  }

  // ---------- Create ----------

  datatype CreateOpts = CreateOpts(id: string, mode: string, expiry: Option<int>, oneTime: bool,
                                   recipientPub: Option<bytes>, password: string)

  /** Where something beside the request goes wrong: the source, the context, the random source, a
      temporary file, the signature. */
  datatype Fault = NoFault | BeforeEncrypting | WhileEncrypting | WhileLocking | WhileSigning | BeforeUpload

  /** What a call draws and finds: a fresh id, the file key, the header nonce of the sealed file,
      the nonces, salt and ephemeral key of the locks, the clock, and how the store takes the Put. */
  datatype CreateEnv = CreateEnv(freshId: string, fileKey: bytes, header: bytes, ephemPriv: bytes, lockNonce: bytes,
                                 passNonce: bytes, salt: bytes, now: int, fault: Fault, put: Stores.Reply)

  const DEFAULT_TTL: int := 72 * 3600

  function KnownModes(): set<string> { {"anonymous", "password", "recipient", "paid", "direct"} }

  /** manifest.Validate on a manifest that New has just filled in. */
  predicate ValidManifest(m: Manifest, createdAt: int) {
    && "GD-" <= m.id && |m.id| == 15 && (forall i :: 3 <= i < 15 ==> IsHex(m.id[i]))
    && m.mode in KnownModes() && m.expiresAt > createdAt
  }

  function LockOf(cfg: Config, o: CreateOpts, e: CreateEnv): Option<Lock> {
    var recipient :=
      if o.recipientPub.None? then Some(Lock([], [], []))
      else
        match WrapFileKey(cfg.suite, e.fileKey, o.recipientPub.value, e.ephemPriv, e.lockNonce)
        case None => None
        case Some(w) => Some(Lock(w.data, w.ephemPub, []));
    if recipient.None? || o.password == "" then recipient
    else
      // the password lock overwrites the wrapped key
      Some(recipient.value.(wrapped := e.passNonce + cfg.suite.aead.seal(cfg.suite.kdf(o.password, e.salt), e.passNonce, e.fileKey),
                            salt := e.salt))
  }

  function Sealed(cfg: Config, e: CreateEnv, source: bytes): bytes
    requires |e.header| == NONCE_SIZE && cfg.chunk >= 1
  {
    SealedFile(cfg.suite.aead, e.fileKey, e.header, cfg.chunk, source)
  }

  function IdOf(o: CreateOpts, e: CreateEnv): string { if o.id == "" then e.freshId else o.id }

  function ManifestOf(cfg: Config, o: CreateOpts, e: CreateEnv, source: bytes, lock: Lock): Manifest {
    Manifest(IdOf(o, e), if o.mode == "" then "anonymous" else o.mode,
             if o.expiry.None? then e.now + DEFAULT_TTL else o.expiry.value,
             Some(cfg.suite.hash(source)), lock, o.oneTime)
  }

  /** `source` is None if it cannot be read. */
  function Create(cfg: Config, s: State, o: CreateOpts, e: CreateEnv, source: Option<bytes>): (State, Option<Error>)
    requires |e.header| == NONCE_SIZE && cfg.chunk >= 1
  {
    var id := IdOf(o, e);
    if !StorageId(id) then (s, Some(BadId))
    else
      var s1 := SetStatus(cfg, s, id, PREPARING);
      if source.None? || e.fault.BeforeEncrypting? then (SetStatus(cfg, s1, id, FAILED), Some(Trouble))
      else
        var s2 := SetStatus(cfg, s1, id, ENCRYPTING);
        var lock := LockOf(cfg, o, e);
        if e.fault.WhileEncrypting? || e.fault.WhileLocking? || lock.None? then (SetStatus(cfg, s2, id, FAILED), Some(Trouble))
        else Published(cfg, s2, ManifestOf(cfg, o, e, source.value, lock.value), Sealed(cfg, e, source.value), e)
  }

  /** From the finished manifest on: sign, validate, upload. */
  function Published(cfg: Config, s: State, m: Manifest, sealed: bytes, e: CreateEnv): (State, Option<Error>) {
    if e.fault.WhileSigning? || !ValidManifest(m, e.now) then (SetStatus(cfg, s, m.id, FAILED), Some(Trouble))
    else
      var s3 := SetStatus(cfg, s, m.id, UPLOADING);
      if e.fault.BeforeUpload? then (SetStatus(cfg, s3, m.id, FAILED), Some(Trouble))
      else if !e.put.Done? then (SetStatus(cfg, s3, m.id, FAILED), Some(StoreFailed))
      else (Uploaded(cfg, s3, m, sealed), None)
  }

  /** The store takes the payload, the manifest is remembered, the row is written. */
  function Uploaded(cfg: Config, s: State, m: Manifest, sealed: bytes): State {
    State(s.manifests[m.id := m], s.statuses[m.id := READY],
          s.store[m.id := Stores.Item(sealed, Some(m.expiresAt))],
          if cfg.Persists() then s.rows[m.id := Row(READY, false)] else s.rows)
  }

  // ---------- Retrieve ----------

  datatype RetrieveOpts = RetrieveOpts(key: Option<bytes>, priv: Option<bytes>, password: string)

  /** The key given directly, else the recipient's, else the password's. */
  function ResolveKey(s: Suite, lock: Lock, o: RetrieveOpts): Option<bytes> {
    if o.key.Some? then o.key
    else if o.priv.Some? then
      if lock.wrapped == [] || |lock.ephemPub| != 32 then None
      else CryptoUnwrap(s, lock.wrapped, lock.ephemPub, o.priv.value)
    else if o.password != "" then
      if lock.wrapped == [] || lock.salt == [] || |lock.wrapped| < NONCE_SIZE + 32 then None
      else
        match s.aead.open(s.kdf(o.password, lock.salt), lock.wrapped[..NONCE_SIZE], lock.wrapped[NONCE_SIZE..])
        case None => None
        case Some(plain) => if |plain| != KEY_SIZE then None else Some(plain)
    else None
  }

  datatype Snag = NoSnag | ContextDone | NoTempFile | CopyBroken | DestinationUnreadable

  /** `got` is what the store answers; `dst` is what is at the destination path before, and `room` how
      many bytes fit there. */
  datatype RetrieveEnv = RetrieveEnv(now: int, got: Stores.Reply, snag: Snag, dst: Option<bytes>, room: nat)

  /** The state, the destination and the error a call leaves behind. */
  datatype Outcome = Outcome(state: State, dst: Option<bytes>, error: Option<Error>)

  function Retrieve(cfg: Config, s: State, id: string, o: RetrieveOpts, e: RetrieveEnv): Outcome {
    if id !in s.manifests then Outcome(s, e.dst, Some(NotFound))
    else
      var m := s.manifests[id];
      if e.now > m.expiresAt then Outcome(SetStatus(cfg, s, id, EXPIRED), e.dst, Some(Expired))
      else
        match ResolveKey(cfg.suite, m.lock, o)
        case None => Outcome(s, e.dst, Some(NoKey))
        case Some(key) =>
          if e.snag.ContextDone? then Outcome(s, e.dst, Some(Cancelled))
          else Fetched(cfg, SetStatus(cfg, s, id, DELIVERED), m, id, key, e)
  }

  /** From the download on. */
  function Fetched(cfg: Config, s: State, m: Manifest, id: string, key: bytes, e: RetrieveEnv): Outcome {
    if e.snag.NoTempFile? then Outcome(s, e.dst, Some(Trouble))
    else
      var read := s.(store := Stores.Reaped(s.store, id, e.now));
      if !e.got.Data? then Outcome(read, e.dst, Some(StoreFailed))
      else if e.snag.CopyBroken? then Outcome(read, e.dst, Some(Trouble))
      else
        var file := OpenedFile(cfg.suite.aead, key, cfg.chunk, StrictBounds(cfg.chunk), e.got.data);
        if !file.result.ok || |file.result.plain| > e.room then
          Outcome(SetStatus(cfg, read, id, FAILED), if file.created then None else e.dst, Some(Undecryptable))
        else Checked(cfg, SetStatus(cfg, read, id, RETRIEVED), m, id, file.result.plain, e.snag)
  }

  /** From the decrypted destination on. */
  function Checked(cfg: Config, s: State, m: Manifest, id: string, plain: bytes, snag: Snag): Outcome {
    if snag.DestinationUnreadable? then Outcome(s, Some(plain), Some(Trouble))
    else if m.plainHash.Some? && cfg.suite.hash(plain) != m.plainHash.value then
      Outcome(SetStatus(cfg, s, id, FAILED), Some(plain), Some(HashMismatch))
    else
      var v := SetStatus(cfg, s, id, VERIFIED);
      var w := if cfg.Persists() && id in v.rows then v.(rows := v.rows[id := Row(VERIFIED, true)]) else v;
      Outcome(if m.oneTime then w.(store := w.store - {id}) else w, Some(plain), None)
  }

  lemma LastMark(statuses: map<string, Status>, id: string, a: Status, b: Status)
    ensures statuses[id := a][id := b] == statuses[id := b]
  {}

  /** The last phase by its outcome. */
  lemma CheckedFacts(cfg: Config, s: State, m: Manifest, id: string, plain: bytes, snag: Snag)
    ensures var out := Checked(cfg, s, m, id, plain, snag);
      && out.dst == Some(plain) && out.state.manifests == s.manifests
      && out.state.store == (if out.error == None && m.oneTime then s.store - {id} else s.store)
      && out.error ==
           (if snag.DestinationUnreadable? then Some(Trouble)
            else if m.plainHash.Some? && cfg.suite.hash(plain) != m.plainHash.value then Some(HashMismatch)
            else None)
      && out.state.statuses ==
           match out.error { case None => s.statuses[id := VERIFIED] case Some(HashMismatch) => s.statuses[id := FAILED] case _ => s.statuses }
  {}

  /** What is at hand when the payload has been decrypted. */
  ghost predicate Decrypted(cfg: Config, key: bytes, e: RetrieveEnv, plain: bytes) {
    && e.got.Data?
    && var file := OpenedFile(cfg.suite.aead, key, cfg.chunk, StrictBounds(cfg.chunk), e.got.data);
    file.result.ok && file.result.plain == plain
  }

  /** The download and what follows, by its outcome. */
  ghost predicate FetchedOutcome(cfg: Config, s: State, m: Manifest, id: string, key: bytes, e: RetrieveEnv, out: Outcome) {
    && out.state.manifests == s.manifests
    && match out.error
       case None =>
         && out.dst.Some? && Decrypted(cfg, key, e, out.dst.value)
         && (m.plainHash.Some? ==> cfg.suite.hash(out.dst.value) == m.plainHash.value)
         && out.state.statuses == s.statuses[id := VERIFIED]
         && out.state.store == if m.oneTime then s.store - {id} else Stores.Reaped(s.store, id, e.now)
       case Some(StoreFailed) =>
         out.state.statuses == s.statuses && out.dst == e.dst && out.state.store == Stores.Reaped(s.store, id, e.now)
       case Some(Undecryptable) =>
         && out.state.statuses == s.statuses[id := FAILED] && (out.dst == None || out.dst == e.dst)
         && out.state.store == Stores.Reaped(s.store, id, e.now)
       case Some(HashMismatch) =>
         && out.dst.Some? && Decrypted(cfg, key, e, out.dst.value)
         && m.plainHash.Some? && cfg.suite.hash(out.dst.value) != m.plainHash.value
         && out.state.statuses == s.statuses[id := FAILED] && out.state.store == Stores.Reaped(s.store, id, e.now)
       case Some(Trouble) =>
         && !e.snag.NoSnag?
         && (out.state.statuses == s.statuses || out.state.statuses == s.statuses[id := RETRIEVED])
         && (out.state.store == s.store || out.state.store == Stores.Reaped(s.store, id, e.now))
       case Some(_) => false
  }

  lemma FetchedFacts(cfg: Config, s: State, m: Manifest, id: string, key: bytes, e: RetrieveEnv)
    ensures FetchedOutcome(cfg, s, m, id, key, e, Fetched(cfg, s, m, id, key, e))
  {
    if e.got.Data? {
      hide Checked, OpenedFile;
      var file := OpenedFile(cfg.suite.aead, key, cfg.chunk, StrictBounds(cfg.chunk), e.got.data);
      var read := s.(store := Stores.Reaped(s.store, id, e.now));
      CheckedFacts(cfg, SetStatus(cfg, read, id, RETRIEVED), m, id, file.result.plain, e.snag);
      LastMark(s.statuses, id, RETRIEVED, VERIFIED);
      LastMark(s.statuses, id, RETRIEVED, FAILED);
      assert s.store - {id} - {id} == s.store - {id};
    }
  }

  /** With nothing in the way, decryption and digest decide. */
  lemma FetchedEnds(cfg: Config, s: State, m: Manifest, id: string, key: bytes, e: RetrieveEnv, file: FileOpened)
    requires e.snag.NoSnag? && e.got.Data?
    requires file == OpenedFile(cfg.suite.aead, key, cfg.chunk, StrictBounds(cfg.chunk), e.got.data)
    ensures Fetched(cfg, s, m, id, key, e).error ==
      if !file.result.ok || |file.result.plain| > e.room then Some(Undecryptable)
      else if m.plainHash.Some? && cfg.suite.hash(file.result.plain) != m.plainHash.value then Some(HashMismatch)
      else None
  {
    hide OpenedFile;
  }

  // ---------- Revoke and Status ----------

  function Revoke(cfg: Config, s: State, id: string, deleted: Stores.Reply): (State, Option<Error>) {
    if deleted.Err? then (s, Some(StoreFailed))
    else (SetStatus(cfg, s.(store := s.store - {id}), id, REVOKED), None)
  }

  /** The reported status, if there is one. */
  function Ask(cfg: Config, s: State, id: string, now: int): (State, Option<Status>) {
    if id in s.manifests && now > s.manifests[id].expiresAt then (SetStatus(cfg, s, id, EXPIRED), Some(EXPIRED))
    else if id in s.statuses then (s, Some(s.statuses[id]))
    else if cfg.Persists() && id in s.rows then (s, Some(s.rows[id].status))
    else (s, None)
  }

  // ---------- memory and database ----------

  datatype Call =
    | Creates(opts: CreateOpts, env: CreateEnv, source: Option<bytes>)
    | Retrieves(id: string, how: RetrieveOpts, at: RetrieveEnv)
    | Revokes(id: string, deleted: Stores.Reply)
    | Asks(id: string, now: int)
    | Restarts                       // the process ends: memory is gone, the database and the store stay

  ghost predicate Sound(cfg: Config, c: Call) { c.Creates? ==> |c.env.header| == NONCE_SIZE }

  function Do(cfg: Config, s: State, c: Call): State
    requires cfg.chunk >= 1 && Sound(cfg, c)
  {
    match c
    case Creates(o, e, source) => Create(cfg, s, o, e, source).0
    case Retrieves(id, o, e) => Retrieve(cfg, s, id, o, e).state
    case Revokes(id, deleted) => Revoke(cfg, s, id, deleted).0
    case Asks(id, now) => Ask(cfg, s, id, now).0
    case Restarts => s.(manifests := map[], statuses := map[])
  }

  ghost predicate AllSound(cfg: Config, calls: seq<Call>) { forall c :: c in calls ==> Sound(cfg, c) }

  function Run(cfg: Config, s: State, calls: seq<Call>): State
    requires cfg.chunk >= 1 && AllSound(cfg, calls)
    decreases |calls|
  {
    if calls == [] then s else Run(cfg, Do(cfg, s, calls[0]), calls[1..])
  }

  /** An id with a status in memory and a row has the same status in both. */
  ghost predicate Agree(s: State) { forall id :: id in s.statuses && id in s.rows ==> s.rows[id].status == s.statuses[id] }

  /** From `s` to `s'` the agreement is kept; without a database to write to, the rows are. */
  ghost predicate Kept(cfg: Config, s: State, s': State) {
    if cfg.Persists() then Agree(s) ==> Agree(s') else s'.rows == s.rows
  }

  lemma SetStatusKeeps(cfg: Config)
    ensures forall s, id, st :: Kept(cfg, s, SetStatus(cfg, s, id, st))
  {}

  lemma CreateKeeps(cfg: Config, s: State, o: CreateOpts, e: CreateEnv, source: Option<bytes>)
    requires |e.header| == NONCE_SIZE && cfg.chunk >= 1
    ensures Kept(cfg, s, Create(cfg, s, o, e, source).0)
  {
    hide SetStatus, SealedFile, LockOf, ValidManifest, StorageId, ManifestOf, Agree, Uploaded;
    SetStatusKeeps(cfg);
    UploadedKeeps(cfg);
  }

  lemma UploadedKeeps(cfg: Config)
    ensures forall s, m, sealed :: Kept(cfg, s, Uploaded(cfg, s, m, sealed))
  {}

  lemma RetrieveKeeps(cfg: Config, s: State, id: string, o: RetrieveOpts, e: RetrieveEnv)
    ensures Kept(cfg, s, Retrieve(cfg, s, id, o, e).state)
  {
    hide SetStatus, OpenedFile, ResolveKey, Agree, Checked;
    SetStatusKeeps(cfg);
    StoreKeeps(cfg);
    CheckedKeeps(cfg);
  }

  lemma StoreKeeps(cfg: Config)
    ensures forall s: State, store :: Kept(cfg, s, s.(store := store))
  {}

  lemma CheckedKeeps(cfg: Config)
    ensures forall s, m, id, plain, snag :: Kept(cfg, s, Checked(cfg, s, m, id, plain, snag).state)
  {}

  lemma CallKeeps(cfg: Config, s: State, c: Call)
    requires cfg.chunk >= 1 && Sound(cfg, c)
    ensures Kept(cfg, s, Do(cfg, s, c))
  {
    hide Create, Retrieve;
    match c
    case Creates(o, e, source) => CreateKeeps(cfg, s, o, e, source);
    case Retrieves(id, o, e) => RetrieveKeeps(cfg, s, id, o, e);
    case _ =>
  }

  /** Along every run that is not in ghost mode, through failures, re-creation and restarts, memory
      and database agree on every drop they both know; in ghost mode, and without a database, no row
      is ever written. */
  lemma {:induction false} StatusesAgree(cfg: Config, s: State, calls: seq<Call>)
    requires cfg.chunk >= 1 && AllSound(cfg, calls)
    ensures cfg.Persists() && Agree(s) ==> Agree(Run(cfg, s, calls))
    ensures !cfg.Persists() ==> Run(cfg, s, calls).rows == s.rows
    decreases |calls|
  {
    if calls != [] {
      hide Do, Agree;
      CallKeeps(cfg, s, calls[0]);
      StatusesAgree(cfg, Do(cfg, s, calls[0]), calls[1..]);
    }
  }

  // ---------- what the status tells ----------

  lemma SetStatusOnlyMarks(cfg: Config)
    ensures forall s, id, st :: SetStatus(cfg, s, id, st).manifests == s.manifests && SetStatus(cfg, s, id, st).store == s.store
    ensures forall s, id, st :: SetStatus(cfg, s, id, st).statuses == s.statuses[id := st]
  {}

  /** A failing Create marks the drop FAILED and leaves the manifest and payload of an earlier drop of
      that id as they were; a successful one marks it READY. */
  lemma CreateMarks(cfg: Config, s: State, o: CreateOpts, e: CreateEnv, source: Option<bytes>)
    requires |e.header| == NONCE_SIZE && cfg.chunk >= 1
    ensures var (s', error) := Create(cfg, s, o, e, source);
      && (error == Some(BadId) ==> s' == s)
      && (error != Some(BadId) ==> s'.statuses == s.statuses[IdOf(o, e) := if error == None then READY else FAILED])
      && (error != None ==> s'.manifests == s.manifests && s'.store == s.store)
  {
    hide SetStatus, Near, SealedFile, LockOf, ValidManifest, StorageId, ManifestOf;
    SetStatusOnlyMarks(cfg);
    LastMarkCounts(cfg, s, IdOf(o, e));
    NearSteps(cfg, s, IdOf(o, e));
    assert forall t, m, sealed :: Uploaded(cfg, t, m, sealed).statuses == t.statuses[m.id := READY];
    assert forall a, l :: ManifestOf(cfg, o, e, a, l).id == IdOf(o, e) by { ManifestNamesItsDrop(cfg, o, e); }
  }

  lemma ManifestNamesItsDrop(cfg: Config, o: CreateOpts, e: CreateEnv)
    ensures forall a, l :: ManifestOf(cfg, o, e, a, l).id == IdOf(o, e)
  {}

  /** The same statuses but for `id`. */
  ghost predicate Near(s: State, t: State, id: string) { t.statuses - {id} == s.statuses - {id} }

  lemma NearSteps(cfg: Config, s: State, id: string)
    ensures Near(s, s, id)
    ensures forall t, st :: Near(s, t, id) ==> Near(s, SetStatus(cfg, t, id, st), id)
    ensures forall t: State, store :: Near(s, t, id) ==> Near(s, t.(store := store), id)
  {
    forall t, st | Near(s, t, id)
      ensures Near(s, SetStatus(cfg, t, id, st), id)
    {
      assert t.statuses[id := st] - {id} == t.statuses - {id};
    }
  }

  lemma LastMarkCounts(cfg: Config, s: State, id: string)
    ensures forall t, st :: Near(s, t, id) ==> SetStatus(cfg, t, id, st).statuses == s.statuses[id := st]
  {
    forall t, st | Near(s, t, id)
      ensures SetStatus(cfg, t, id, st).statuses == s.statuses[id := st]
    {
      Overwritten(s.statuses, t.statuses, id, st);
    }
  }

  lemma Overwritten(a: map<string, Status>, b: map<string, Status>, id: string, st: Status)
    requires a - {id} == b - {id}
    ensures a[id := st] == b[id := st]
  {
    assert a[id := st] == (a - {id})[id := st];
    assert b[id := st] == (b - {id})[id := st];
  }

  /** The status after a Retrieve, by its outcome. Before the download begins nothing is marked (but an
      expiry); a download that fails leaves DELIVERED; what does not decrypt or has the wrong digest
      is FAILED; and the destination is never left with bytes that failed to decrypt. */
  lemma RetrieveMarks(cfg: Config, s: State, id: string, o: RetrieveOpts, e: RetrieveEnv)
    ensures var out := Retrieve(cfg, s, id, o, e);
      match out.error
      case None => out.state.statuses == s.statuses[id := VERIFIED]
      case Some(Expired) => out.state == SetStatus(cfg, s, id, EXPIRED) && out.dst == e.dst
      case Some(StoreFailed) => out.state.statuses == s.statuses[id := DELIVERED] && out.dst == e.dst
      case Some(Undecryptable) => out.state.statuses == s.statuses[id := FAILED] && (out.dst == None || out.dst == e.dst)
      case Some(HashMismatch) => out.state.statuses == s.statuses[id := FAILED]
      case Some(Trouble) =>
        || out.state.statuses == s.statuses[id := DELIVERED]
        || out.state.statuses == s.statuses[id := RETRIEVED]
      case Some(_) => out.state == s && out.dst == e.dst
  {
    hide SetStatus, Fetched, ResolveKey, Decrypted;
    SetStatusOnlyMarks(cfg);
    var key := if id in s.manifests then ResolveKey(cfg.suite, s.manifests[id].lock, o) else None;
    if key.Some? {
      FetchedFacts(cfg, SetStatus(cfg, s, id, DELIVERED), s.manifests[id], id, key.value, e);
      LastMark(s.statuses, id, DELIVERED, VERIFIED);
      LastMark(s.statuses, id, DELIVERED, FAILED);
      LastMark(s.statuses, id, DELIVERED, RETRIEVED);
    }
  }

  // ---------- end to end ----------

  /** The key material that belongs to a drop: the file key itself, or the recipient's private key if
      no password lock has overwritten the wrapped key, or the password. */
  ghost predicate Entitled(cfg: Config, o: CreateOpts, e: CreateEnv, how: RetrieveOpts) {
    if how.key.Some? then how.key == Some(e.fileKey)
    else if how.priv.Some? then o.recipientPub == Some(cfg.suite.dh.pub(how.priv.value)) && o.password == ""
    else how.password != "" && how.password == o.password
  }

  lemma EntitledResolves(cfg: Config, o: CreateOpts, e: CreateEnv, how: RetrieveOpts)
    requires cfg.suite.aead.Correct() && cfg.suite.dh.Commutes()
    requires |e.fileKey| == KEY_SIZE && |e.lockNonce| == NONCE_SIZE && |e.passNonce| == NONCE_SIZE && e.salt != []
    requires Entitled(cfg, o, e, how) && LockOf(cfg, o, e).Some?
    ensures ResolveKey(cfg.suite, LockOf(cfg, o, e).value, how) == Some(e.fileKey)
  {
    var lock := LockOf(cfg, o, e).value;
    if how.key.None? && how.priv.Some? {
      UnwrapUndoesWrap(cfg.suite, e.fileKey, how.priv.value, e.ephemPriv, e.lockNonce);
    } else if how.key.None? {
      OpenUndoesSeal(cfg.suite, cfg.suite.kdf(o.password, e.salt), e.passNonce, e.fileKey);
      var sealed := cfg.suite.aead.seal(cfg.suite.kdf(o.password, e.salt), e.passNonce, e.fileKey);
      assert lock.wrapped[..NONCE_SIZE] == e.passNonce && lock.wrapped[NONCE_SIZE..] == sealed;
    }
  }

  /** The drop is as Create left it: same manifest, same payload. */
  ghost predicate Intact(cfg: Config, s: State, o: CreateOpts, e: CreateEnv, source: bytes)
    requires |e.header| == NONCE_SIZE && cfg.chunk >= 1
  {
    var id := IdOf(o, e);
    && LockOf(cfg, o, e).Some?
    && var m := ManifestOf(cfg, o, e, source, LockOf(cfg, o, e).value);
    && id in s.manifests && s.manifests[id] == m
    && id in s.store && s.store[id] == Stores.Item(Sealed(cfg, e, source), Some(m.expiresAt))
  }

  lemma CreatedIsIntact(cfg: Config, s: State, o: CreateOpts, e: CreateEnv, source: Option<bytes>)
    requires |e.header| == NONCE_SIZE && cfg.chunk >= 1
    ensures var (s', error) := Create(cfg, s, o, e, source);
      error == None ==> source.Some? && Intact(cfg, s', o, e, source.value) && s'.statuses[IdOf(o, e)] == READY
  {
    hide SealedFile, LockOf, ValidManifest, StorageId;
  }

  /** The drop a call works on. */
  predicate Concerns(c: Call, id: string) {
    match c
    case Creates(o, e, _) => IdOf(o, e) == id
    case Retrieves(i, _, _) => i == id
    case Revokes(i, _) => i == id
    case Asks(_, _) => false
    case Restarts => true
  }

  /** Whatever happens to other drops, and asking for its status, leaves a drop as it was. */
  lemma {:induction false} OthersKeepIntact(cfg: Config, s: State, o: CreateOpts, e: CreateEnv, source: bytes, calls: seq<Call>)
    requires |e.header| == NONCE_SIZE && cfg.chunk >= 1 && AllSound(cfg, calls)
    requires Intact(cfg, s, o, e, source) && forall c :: c in calls ==> !Concerns(c, IdOf(o, e))
    ensures Intact(cfg, Run(cfg, s, calls), o, e, source)
    decreases |calls|
  {
    if calls != [] {
      OtherKeepsDrop(cfg, s, calls[0], IdOf(o, e));
      hide Do, LockOf, SealedFile, ManifestOf, Sealed;
      OthersKeepIntact(cfg, Do(cfg, s, calls[0]), o, e, source, calls[1..]);
    }
  }

  ghost predicate SameDrop(s: State, s': State, id: string) {
    && (id in s.manifests ==> id in s'.manifests && s'.manifests[id] == s.manifests[id])
    && (id in s.store ==> id in s'.store && s'.store[id] == s.store[id])
  }

  lemma OtherKeepsDrop(cfg: Config, s: State, c: Call, id: string)
    requires cfg.chunk >= 1 && Sound(cfg, c) && !Concerns(c, id)
    ensures SameDrop(s, Do(cfg, s, c), id)
  {
    hide SetStatus, SealedFile, LockOf, ValidManifest, StorageId, Retrieve;
    SetStatusOnlyMarks(cfg);
    if c.Retrieves? {
      RetrieveTouches(cfg, s, c.id, c.how, c.at);
    }
  }

  lemma RetrieveTouches(cfg: Config, s: State, id: string, o: RetrieveOpts, e: RetrieveEnv)
    ensures var s' := Retrieve(cfg, s, id, o, e).state;
      s'.manifests == s.manifests && (s'.store == s.store || s'.store == s.store - {id})
  {
    hide SetStatus, Fetched, ResolveKey, Decrypted;
    SetStatusOnlyMarks(cfg);
    var key := if id in s.manifests then ResolveKey(cfg.suite, s.manifests[id].lock, o) else None;
    if key.Some? {
      FetchedFacts(cfg, SetStatus(cfg, s, id, DELIVERED), s.manifests[id], id, key.value, e);
    }
  }

  lemma RetrieveIntact(cfg: Config, s: State, o: CreateOpts, e: CreateEnv, source: bytes, how: RetrieveOpts, at: RetrieveEnv)
    requires cfg.suite.aead.Correct() && cfg.suite.dh.Commutes()
    requires 1 <= cfg.chunk && cfg.chunk + 64 < U32
    requires |e.fileKey| == KEY_SIZE && |e.header| == NONCE_SIZE && |e.lockNonce| == NONCE_SIZE && |e.passNonce| == NONCE_SIZE && e.salt != []
    requires Intact(cfg, s, o, e, source) && Entitled(cfg, o, e, how)
    requires at.now <= s.manifests[IdOf(o, e)].expiresAt && at.snag.NoSnag? && |source| <= at.room
    requires at.got == Stores.Get(s.store, IdOf(o, e), 0, at.now)
    ensures Delivered(cfg, o, e, source, Retrieve(cfg, s, IdOf(o, e), how, at))
  {
    EntitledResolves(cfg, o, e, how);
    Interchangeable(cfg.suite.aead, e.fileKey, e.header, cfg.chunk, source);
    var sealed, id := Sealed(cfg, e, source), IdOf(o, e);
    assert sealed[0..] == sealed;
    hide SetStatus, Fetched, LockOf, ResolveKey, OpenedFile, SealedFile;
    SetStatusOnlyMarks(cfg);
    var m, s' := s.manifests[id], SetStatus(cfg, s, id, DELIVERED);
    var file := OpenedFile(cfg.suite.aead, e.fileKey, cfg.chunk, StrictBounds(cfg.chunk), sealed);
    FetchedFacts(cfg, s', m, id, e.fileKey, at);
    FetchedEnds(cfg, s', m, id, e.fileKey, at, file);
  }

  /** No error, the source at the destination, VERIFIED, and a one-time payload gone. */
  ghost predicate Delivered(cfg: Config, o: CreateOpts, e: CreateEnv, source: bytes, out: Outcome) {
    var id := IdOf(o, e);
    && out.error == None && out.dst == Some(source)
    && id in out.state.statuses && out.state.statuses[id] == VERIFIED
    && (o.oneTime <==> id !in out.state.store)
  }

  /** Create, then anything done to other drops, then Retrieve before the expiry with key material
      that belongs to the drop: the source comes back. */
  lemma CreateThenRetrieve(cfg: Config, s: State, o: CreateOpts, e: CreateEnv, source: bytes, between: seq<Call>, how: RetrieveOpts, at: RetrieveEnv)
    requires cfg.suite.aead.Correct() && cfg.suite.dh.Commutes()
    requires 1 <= cfg.chunk && cfg.chunk + 64 < U32
    requires |e.fileKey| == KEY_SIZE && |e.header| == NONCE_SIZE && |e.lockNonce| == NONCE_SIZE && |e.passNonce| == NONCE_SIZE && e.salt != []
    requires Create(cfg, s, o, e, Some(source)).1 == None
    requires AllSound(cfg, between) && forall c :: c in between ==> !Concerns(c, IdOf(o, e))
    requires Entitled(cfg, o, e, how) && at.snag.NoSnag? && |source| <= at.room
    ensures var s' := Run(cfg, Create(cfg, s, o, e, Some(source)).0, between);
      && IdOf(o, e) in s'.manifests
      && (at.now <= s'.manifests[IdOf(o, e)].expiresAt && at.got == Stores.Get(s'.store, IdOf(o, e), 0, at.now) ==>
            Delivered(cfg, o, e, source, Retrieve(cfg, s', IdOf(o, e), how, at)))
  {
    CreatedIsIntact(cfg, s, o, e, Some(source));
    var s1 := Create(cfg, s, o, e, Some(source)).0;
    OthersKeepIntact(cfg, s1, o, e, source, between);
    var s' := Run(cfg, s1, between);
    hide Create, Run, Retrieve, Delivered, Entitled;
    if at.now <= s'.manifests[IdOf(o, e)].expiresAt && at.got == Stores.Get(s'.store, IdOf(o, e), 0, at.now) {
      RetrieveIntact(cfg, s', o, e, source, how, at);
    }
  }

  /** Whatever bytes the store returns and whatever key is used: if Retrieve returns nil, the
      destination has the hash the manifest promises, so it is the original plaintext unless these two
      strings collide; and no failing call marks a drop VERIFIED. */
  lemma RetrieveIsHonest(cfg: Config, s: State, id: string, how: RetrieveOpts, at: RetrieveEnv, source: bytes)
    requires id in s.manifests && s.manifests[id].plainHash == Some(cfg.suite.hash(source))
    ensures var out := Retrieve(cfg, s, id, how, at);
      && (out.error == None ==>
            out.dst.Some? && (NoCollision(cfg.suite.hash, out.dst.value, source) ==> out.dst == Some(source)))
      && (out.error.Some? && id in out.state.statuses && out.state.statuses[id] == VERIFIED ==> out.state.statuses == s.statuses)
  {
    hide SetStatus, Fetched, ResolveKey, Decrypted;
    SetStatusOnlyMarks(cfg);
    var key := ResolveKey(cfg.suite, s.manifests[id].lock, how);
    if key.Some? {
      FetchedFacts(cfg, SetStatus(cfg, s, id, DELIVERED), s.manifests[id], id, key.value, at);
    }
  }

  /** A store may cut a sealed file between two chunks without the format noticing. The digest check does:
      let the store present any body behind the file's header, with nothing but this file's chunks
      sealed under the key, and let no prefix of the source at a chunk boundary collide with it; then
      Retrieve succeeds if and only if the sealed file was presented whole. */
  lemma RetrieveTakesOnlyTheWholeFile(cfg: Config, s: State, id: string, how: RetrieveOpts, at: RetrieveEnv,
                                      key: bytes, header: bytes, body: bytes, source: bytes)
    requires cfg.suite.aead.Correct() && 1 <= cfg.chunk && cfg.chunk + 64 < U32 && |header| == NONCE_SIZE
    requires id in s.manifests && s.manifests[id].plainHash == Some(cfg.suite.hash(source)) && at.now <= s.manifests[id].expiresAt
    requires ResolveKey(cfg.suite, s.manifests[id].lock, how) == Some(key)
    requires at.snag.NoSnag? && |source| <= at.room && at.got == Stores.Data(MAGIC + header + body)
    requires FileCodec(cfg.suite.aead, key, header, cfg.chunk).ChunkCount(|source|) < U64
    requires Unforged(cfg.suite.aead, key, header, cfg.chunk, source, StrictBounds(cfg.chunk), body, 0)
    requires PrefixesTold(cfg, key, header, source)
    ensures Retrieve(cfg, s, id, how, at).error == None
      <==> MAGIC + header + body == SealedFile(cfg.suite.aead, key, header, cfg.chunk, source)
  {
    var aead, cs := cfg.suite.aead, cfg.chunk;
    var codec, stream := FileCodec(aead, key, header, cs), MAGIC + header + body;
    var file := OpenedFile(aead, key, cs, StrictBounds(cs), stream);
    RetrieveChecks(cfg, s, id, how, at, key, stream);
    AcceptedLanguage(aead, key, header, cs, source, StrictBounds(cs), body);
    var k: nat :| k <= codec.ChunkCount(|source|) && file.result.plain == source[..codec.Off(|source|, k)]
                  && (file.result.ok ==> body == codec.Frames(source[..codec.Off(|source|, k)], 0));
    Interchangeable(aead, key, header, cs, source);
    hide OpenedFile, Retrieve, Unforged, ResolveKey;
    if file.result.ok && cfg.suite.hash(file.result.plain) == cfg.suite.hash(source) {
      assert NoCollision(cfg.suite.hash, source[..codec.Off(|source|, k)], source);
      assert stream == SealedFile(aead, key, header, cs, source);
    }
  }

  /** The hash tells the source from its prefixes at chunk boundaries. */
  ghost predicate PrefixesTold(cfg: Config, key: bytes, header: bytes, source: bytes)
    requires |header| == NONCE_SIZE
  {
    var codec := FileCodec(cfg.suite.aead, key, header, cfg.chunk);
    forall k: nat :: NoCollision(cfg.suite.hash, source[..codec.Off(|source|, k)], source)
  }

  lemma RetrieveChecks(cfg: Config, s: State, id: string, how: RetrieveOpts, at: RetrieveEnv, key: bytes, stream: bytes)
    requires id in s.manifests && s.manifests[id].plainHash.Some? && at.now <= s.manifests[id].expiresAt
    requires ResolveKey(cfg.suite, s.manifests[id].lock, how) == Some(key)
    requires at.snag.NoSnag? && at.got == Stores.Data(stream)
    ensures var file := OpenedFile(cfg.suite.aead, key, cfg.chunk, StrictBounds(cfg.chunk), stream);
      (Retrieve(cfg, s, id, how, at).error == None) ==
        (file.result.ok && |file.result.plain| <= at.room && cfg.suite.hash(file.result.plain) == s.manifests[id].plainHash.value)
  {
    hide SetStatus, Fetched, ResolveKey, OpenedFile;
    SetStatusOnlyMarks(cfg);
    var file, m := OpenedFile(cfg.suite.aead, key, cfg.chunk, StrictBounds(cfg.chunk), stream), s.manifests[id];
    FetchedFacts(cfg, SetStatus(cfg, s, id, DELIVERED), m, id, key, at);
    FetchedEnds(cfg, SetStatus(cfg, s, id, DELIVERED), m, id, key, at, file);
  }
}
