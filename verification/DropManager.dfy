/** drops.Manager as it is: fields updated step by step, every failure path with its own status, over a
    memory store, the sealing and the opening loop. Each method is proved against module Drops, with
    the store's answers in place of arbitrary ones. */
module DropManager {
  import opened Bytes
  import opened Primitives
  import opened Files
  import opened Ids
  import opened Gd01
  import opened Gd01Loops
  import opened Drops
  import Stores
  import opened Providers

  /** The Put that Create makes of a sealed file. */
  function PutOf(m: Manifest, sealed: bytes): Stores.Upload
    requires |sealed| < I64
  {
    Stores.Upload(m.id, sealed, false, |sealed|, Some(m.expiresAt), false)
  }

  /** What Create finds: the draws and faults of `e`, a source that may break and a temporary disk that may
      be full, and the verdict of the memory store. */
  ghost function Found(cfg: Config, o: CreateOpts, e: CreateEnv, s: State, max: int64, data: bytes, broken: bool, room: nat): CreateEnv
    requires |e.header| == NONCE_SIZE && cfg.chunk >= 1 && max > 0 && room < I64
  {
    var sealed := Sealed(cfg, e, data);
    if e.fault.BeforeEncrypting? then e
    else if broken || |sealed| > room then e.(fault := WhileEncrypting)
    else
      var lock := LockOf(cfg, o, e);
      if lock.None? then e
      else e.(put := Stores.MemoryVerdict(max, Stores.Used(s.store), s.store, PutOf(ManifestOf(cfg, o, e, data, lock.value), sealed)))
  }

  /** Faults and verdicts do not change what is sealed, locked and written down. */
  lemma DrawsDecide(cfg: Config, o: CreateOpts, e: CreateEnv, s: State, max: int64, data: bytes, broken: bool, room: nat)
    requires |e.header| == NONCE_SIZE && cfg.chunk >= 1 && max > 0 && room < I64
    ensures var found := Found(cfg, o, e, s, max, data, broken, room);
      && found.header == e.header && IdOf(o, found) == IdOf(o, e) && found.now == e.now
      && LockOf(cfg, o, found) == LockOf(cfg, o, e) && Sealed(cfg, found, data) == Sealed(cfg, e, data)
      && (forall lock :: ManifestOf(cfg, o, found, data, lock) == ManifestOf(cfg, o, e, data, lock))
      && (broken || |Sealed(cfg, e, data)| > room || LockOf(cfg, o, e).None? || found.fault == e.fault)
  {}

  lemma PublishedAlike(cfg: Config, m: Manifest, sealed: bytes, a: CreateEnv, b: CreateEnv)
    requires a.fault == b.fault && a.now == b.now
    ensures forall s :: Published(cfg, s, m, sealed, a) == Published(cfg, s, m, sealed, b.(put := a.put))
  {}

  /** What the memory store makes of a reader of exactly the announced size. */
  lemma ExactPut(max: int64, m: Stores.Memory, u: Stores.Upload)
    requires max > 0 && |u.data| == u.size && !u.broken
    ensures var (m', reply) := Stores.MemoryStep(max, m, Stores.Puts(u));
      && reply == Stores.MemoryVerdict(max, m.used, m.items, u)
      && m'.items == if reply.Done? then m.items[u.id := Stores.Item(u.data, u.expiry)] else m.items
  {
    assert u.data[..|u.data|] == u.data;
  }

  class Manager {
    const cfg: Config
    const store: MemoryProvider
    var manifests: map<string, Manifest>
    var statuses: map<string, Status>
    var rows: map<string, Row>

    ghost predicate Valid()
      reads this, store
    {
      store.Valid() && cfg.chunk >= 1
    }

    ghost function State(): State
      reads this, store
    {
      Drops.State(manifests, statuses, store.items, rows)
    }

    /** A new manager over a store and the rows of the database. */
    constructor (cfg: Config, store: MemoryProvider, rows: map<string, Row>)
      requires store.Valid() && cfg.chunk >= 1
      ensures Valid() && this.cfg == cfg && this.store == store && State() == Drops.State(map[], map[], store.items, rows)
    {
      this.cfg, this.store, this.rows, manifests, statuses := cfg, store, rows, map[], map[];
    }

    method SetStatus(id: string, st: Status)
      modifies this`statuses, this`rows
      ensures State() == Drops.SetStatus(cfg, old(State()), id, st)
    {
      statuses := statuses[id := st];
      if cfg.Persists() {
        rows := UpdateStatus(rows, id, st);
      }
    }

    method Remember(m: Manifest, st: Status)
      modifies this`manifests, this`statuses
      ensures manifests == old(manifests)[m.id := m] && statuses == old(statuses)[m.id := st]
    {
      manifests := manifests[m.id := m];
      statuses := statuses[m.id := st];
    }

    /** Create: seal the source into a temporary file, lock the key, sign, upload, remember. A source
        that cannot be opened is null. */
    method Create(o: CreateOpts, e: CreateEnv, source: Source?, tmp: File) returns (error: Option<Error>)
      requires Valid() && |e.header| == NONCE_SIZE && tmp.capacity < I64
      requires source != null ==> source.Valid() && source.pos == 0 && |source.data| < I64
      modifies this, store, tmp, source
      ensures Valid()
      ensures source == null ==> (State(), error) == Drops.Create(cfg, old(State()), o, e, None)
      ensures source != null ==>
        var found := Found(cfg, o, e, old(State()), store.maxBytes, source.data, source.broken, tmp.capacity);
        (State(), error) == Drops.Create(cfg, old(State()), o, found, Some(source.data))
    {
      hide Drops.SetStatus, SealedFile, LockOf, StorageId, Published, Stores.Used, Stores.MemoryVerdict;
      if source != null {
        DrawsDecide(cfg, o, e, State(), store.maxBytes, source.data, source.broken, tmp.capacity);
      }
      var id := if o.id == "" then e.freshId else o.id;
      if !StorageId(id) {
        return Some(BadId);
      }
      SetStatus(id, PREPARING);
      if source == null || e.fault.BeforeEncrypting? {
        SetStatus(id, FAILED);
        return Some(Trouble);
      }
      SetStatus(id, ENCRYPTING);
      if e.fault.WhileEncrypting? {
        SetStatus(id, FAILED);
        return Some(Trouble);
      }
      var report := CryptoSealFile(source, tmp, cfg.suite.aead, e.fileKey, e.header, cfg.chunk, cfg.suite.hash);
      if report.None? {
        SetStatus(id, FAILED);
        return Some(Trouble);
      }
      var sealed := tmp.content.value;
      var lock := LockOf(cfg, o, e);
      if e.fault.WhileLocking? || lock.None? {
        SetStatus(id, FAILED);
        return Some(Trouble);
      }
      var m := Manifest(id, if o.mode == "" then "anonymous" else o.mode,
                              if o.expiry.None? then e.now + DEFAULT_TTL else o.expiry.value,
                              Some(report.value.plainHash), lock.value, o.oneTime);
      assert m == ManifestOf(cfg, o, e, source.data, lock.value);
      ghost var found := Found(cfg, o, e, old(State()), store.maxBytes, source.data, source.broken, tmp.capacity);
      error := Publish(m, sealed, e);
      assert found.put == Stores.MemoryVerdict(store.maxBytes, Stores.Used(old(store.items)), old(store.items), PutOf(m, sealed));
      PublishedAlike(cfg, m, sealed, found, e);
    }

    /** Sign, validate, upload. */
    method Publish(m: Manifest, sealed: bytes, e: CreateEnv) returns (error: Option<Error>)
      requires Valid() && |sealed| < I64
      modifies this, store
      ensures Valid()
      ensures var verdict := Stores.MemoryVerdict(store.maxBytes, Stores.Used(old(store.items)), old(store.items), PutOf(m, sealed));
        (State(), error) == Published(cfg, old(State()), m, sealed, e.(put := verdict))
    {
      hide Drops.SetStatus, ValidManifest, Uploaded, Stores.Used, Stores.MemoryVerdict;
      if e.fault.WhileSigning? || !ValidManifest(m, e.now) {
        SetStatus(m.id, FAILED);
        return Some(Trouble);
      }
      SetStatus(m.id, UPLOADING);
      if e.fault.BeforeUpload? {
        SetStatus(m.id, FAILED);
        return Some(Trouble);
      }
      var put := Upload(m, sealed);
      if !put.Done? {
        SetStatus(m.id, FAILED);
        return Some(StoreFailed);
      }
      return None;
    }

    /** The Put and, if the store takes it, the manifest and the row. */
    method Upload(m: Manifest, sealed: bytes) returns (put: Stores.Reply)
      requires Valid() && |sealed| < I64
      modifies this, store
      ensures Valid()
      ensures put == Stores.MemoryVerdict(store.maxBytes, Stores.Used(old(store.items)), old(store.items), PutOf(m, sealed))
      ensures State() == if put.Done? then Uploaded(cfg, old(State()), m, sealed) else old(State())
    {
      hide Stores.Used, Stores.MemoryStep, Stores.MemoryVerdict;
      ExactPut(store.maxBytes, store.State(), PutOf(m, sealed));
      var f := new Source(sealed, false);
      put := store.Put(false, m.id, f, |sealed|, Some(m.expiresAt));
      if put.Done? {
        Remember(m, READY);
        if cfg.Persists() {
          rows := rows[m.id := Row(READY, false)];
        }
      }
    }

    /** Retrieve into the path `dst`. */
    method Retrieve(id: string, o: RetrieveOpts, now: int, snag: Snag, dst: File) returns (error: Option<Error>)
      requires Valid()
      modifies this, store, dst
      ensures Valid()
      ensures Outcome(State(), dst.content, error) ==
        Drops.Retrieve(cfg, old(State()), id, o,
                       RetrieveEnv(now, Stores.Get(old(store.items), id, 0, now), snag, old(dst.content), dst.capacity))
    {
      hide Drops.SetStatus, Fetched, Drops.ResolveKey, Stores.Used;
      if id !in manifests {
        return Some(NotFound);
      }
      var m := manifests[id];
      if now > m.expiresAt {
        SetStatus(id, EXPIRED);
        return Some(Expired);
      }
      var key := ResolveKey(cfg.suite, m.lock, o);
      if key.None? {
        return Some(NoKey);
      }
      if snag.ContextDone? {
        return Some(Cancelled);
      }
      SetStatus(id, DELIVERED);
      error := Fetch(m, id, key.value, now, snag, dst);
    }

    /** The download and the decryption. */
    method Fetch(m: Manifest, id: string, key: bytes, now: int, snag: Snag, dst: File) returns (error: Option<Error>)
      requires Valid()
      modifies this, store, dst
      ensures Valid()
      ensures Outcome(State(), dst.content, error) ==
        Drops.Fetched(cfg, old(State()), m, id, key,
                      RetrieveEnv(now, Stores.Get(old(store.items), id, 0, now), snag, old(dst.content), dst.capacity))
    {
      hide Drops.SetStatus, OpenedFile, Checked, Stores.Used;
      if snag.NoTempFile? {
        return Some(Trouble);
      }
      PayloadFits(store.items, id);
      var got := store.Get(false, id, 0, now);
      if !got.Data? {
        return Some(StoreFailed);
      }
      if snag.CopyBroken? {
        return Some(Trouble);
      }
      NothingFromNoFile(cfg.suite.aead, key, cfg.chunk, got.data);
      var enc := new Source(got.data, false);
      var ok := CryptoOpenFile(enc, dst, cfg.suite.aead, key, cfg.chunk);
      if !ok {
        SetStatus(id, FAILED);
        return Some(Undecryptable);
      }
      SetStatus(id, RETRIEVED);
      error := Check(m, id, snag, dst);
    }

    /** The digest of what is now at the destination, and the end of a one-time payload. */
    method Check(m: Manifest, id: string, snag: Snag, dst: File) returns (error: Option<Error>)
      requires Valid() && dst.content.Some?
      modifies this, store
      ensures Valid()
      ensures Outcome(State(), dst.content, error) == Checked(cfg, old(State()), m, id, dst.content.value, snag)
    {
      hide Stores.Used, Drops.SetStatus;
      if snag.DestinationUnreadable? {
        return Some(Trouble);
      }
      var digest := cfg.suite.hash(dst.content.value);
      if m.plainHash.Some? && digest != m.plainHash.value {
        SetStatus(id, FAILED);
        return Some(HashMismatch);
      }
      MarkVerified(id);
      if m.oneTime {
        assert id !in store.items ==> store.items - {id} == store.items;
        var _ := store.Delete(false, id);
      }
      return None;
    }

    /** The status, then the two updates of the row. */
    method MarkVerified(id: string)
      modifies this`statuses, this`rows
      ensures var v := Drops.SetStatus(cfg, old(State()), id, VERIFIED);
        State() == if cfg.Persists() && id in v.rows then v.(rows := v.rows[id := Row(VERIFIED, true)]) else v
    {
      SetStatus(id, VERIFIED);
      if cfg.Persists() {
        if id in rows {
          rows := rows[id := rows[id].(verified := true)];
        }
        rows := UpdateStatus(rows, id, VERIFIED);
      }
    }

    method Revoke(id: string, cancelled: bool) returns (error: Option<Error>)
      requires Valid()
      modifies this, store
      ensures Valid()
      ensures (State(), error) ==
        Drops.Revoke(cfg, old(State()), id, if cancelled then Stores.Err(Stores.Cancelled) else Stores.Done)
    {
      hide Stores.Used;
      assert id !in store.items ==> store.items - {id} == store.items;
      var deleted := store.Delete(cancelled, id);
      if deleted.Err? {
        return Some(StoreFailed);
      }
      SetStatus(id, REVOKED);
      if cfg.Persists() {
        ghost var once := rows;
        rows := UpdateStatus(rows, id, REVOKED);
        assert rows == once;
      }
      return None;
    }

    method Ask(id: string, now: int) returns (st: Option<Status>)
      requires Valid()
      modifies this
      ensures Valid() && (State(), st) == Drops.Ask(cfg, old(State()), id, now)
    {
      if id in manifests && now > manifests[id].expiresAt {
        SetStatus(id, EXPIRED);
        return Some(EXPIRED);
      }
      if id in statuses {
        return Some(statuses[id]);
      }
      if cfg.Persists() && id in rows {
        return Some(rows[id].status);
      }
      return None;
    }
  }

  lemma NothingFromNoFile(aead: Aead, key: bytes, cs: nat, s: bytes)
    ensures !OpenedFile(aead, key, cs, StrictBounds(cs), s).created ==> !OpenedFile(aead, key, cs, StrictBounds(cs), s).result.ok
  {}

  /** A blob within the quota has an int64 length. */
  lemma PayloadFits(s: Stores.Store, id: string)
    ensures id in s ==> |s[id].data| <= Stores.Used(s)
  {
    Stores.UsedAfter(s, id, Stores.Item([], None));
  }
}
