/** The memory and the local store as classes that update their fields, each proved against the
    expiring map of module Stores. Each call is one atomic step. */
module Providers {
  import opened Bytes
  import opened Files
  import opened Ids
  import opened Stores
  import opened Totals

  const DEFAULT_QUOTA: int64 := 0x4000_0000

  class MemoryProvider {
    const maxBytes: int64
    var items: Store
    var used: int

    ghost function State(): Memory
      reads this
    {
      Memory(items, used)
    }

    /** The counter is the number of bytes stored, and within the quota. */
    ghost predicate Valid()
      reads this
    {
      maxBytes > 0 && used == Used(items) <= maxBytes
    }

    constructor (maxBytes: int64)
      ensures Valid() && items == map[] && this.maxBytes == if maxBytes <= 0 then DEFAULT_QUOTA else maxBytes
    {
      this.maxBytes := if maxBytes <= 0 then DEFAULT_QUOTA else maxBytes;
      items, used := map[], 0;
      new;
      assert Sizes(items) == map[];
    }

    method Put(cancelled: bool, id: string, r: Source, size: int64, expiry: Option<int>) returns (reply: Reply)
      requires Valid() && r.Valid() && r.pos == 0
      modifies this, r
      ensures Valid()
      ensures (State(), reply) == MemoryStep(maxBytes, old(State()), Puts(Upload(id, r.data, r.broken, size, expiry, cancelled)))
    {
      hide Used, StorageId, OneMore;
      MemoryStepFacts(maxBytes, State(), Puts(Upload(id, r.data, r.broken, size, expiry, cancelled)));
      assert r.data[0..] == r.data;
      if !StorageId(id) { return Err(BadId); }
      if cancelled { return Err(Cancelled); }
      if size < 0 { return Err(NegativeSize); }
      var data, ok := r.ReadAll(OneMore(maxBytes));
      if !ok { return Err(IoError); }
      if |data| > maxBytes { return Err(OverQuota); }
      if |data| != size { return Err(ShortRead); }
      var before := 0;
      if id in items {
        before := |items[id].data|;
      }
      if used - before + size > maxBytes { return Err(OverQuota); }
      items := items[id := Item(data, expiry)];
      used := used - before + size;
      return Done;
    }

    method Get(cancelled: bool, id: string, offset: int64, now: int) returns (reply: Reply)
      requires Valid()
      modifies this
      ensures Valid()
      ensures (State(), reply) == if cancelled then (old(State()), Err(Cancelled)) else MemoryStep(maxBytes, old(State()), Gets(id, offset, now))
    {
      hide Used;
      MemoryStepFacts(maxBytes, State(), Gets(id, offset, now));
      if cancelled { return Err(Cancelled); }
      if id !in items { return Err(NotFound); }
      var it := items[id];
      if it.Expired(now) {
        items := items - {id};
        used := used - |it.data|;
        return Err(ItemExpired);
      }
      if offset < 0 || offset > |it.data| { return Err(BadOffset); }
      return Data(it.data[offset..]);
    }

    method Delete(cancelled: bool, id: string) returns (reply: Reply)
      requires Valid()
      modifies this
      ensures Valid()
      ensures (State(), reply) == if cancelled then (old(State()), Err(Cancelled)) else MemoryStep(maxBytes, old(State()), Deletes(id))
    {
      hide Used;
      MemoryStepFacts(maxBytes, State(), Deletes(id));
      if cancelled { return Err(Cancelled); }
      if id in items {
        var it := items[id];
        items := items - {id};
        used := used - |it.data|;
      }
      return Done;
    }

    method Exists(cancelled: bool, id: string, now: int) returns (reply: Reply)
      requires Valid()
      modifies this
      ensures Valid()
      ensures (State(), reply) == if cancelled then (old(State()), Err(Cancelled)) else MemoryStep(maxBytes, old(State()), LooksUp(id, now))
    {
      hide Used;
      MemoryStepFacts(maxBytes, State(), LooksUp(id, now));
      if cancelled { return Err(Cancelled); }
      if id !in items { return Is(false); }
      var it := items[id];
      if it.Expired(now) {
        items := items - {id};
        used := used - |it.data|;
        return Is(false);
      }
      return Is(true);
    }

    method Stat(cancelled: bool, id: string, now: int) returns (reply: Reply)
      requires Valid()
      modifies this
      ensures Valid()
      ensures (State(), reply) == if cancelled then (old(State()), Err(Cancelled)) else MemoryStep(maxBytes, old(State()), Stats(id, now))
    {
      hide Used;
      MemoryStepFacts(maxBytes, State(), Stats(id, now));
      if cancelled { return Err(Cancelled); }
      if id !in items { return Err(NotFound); }
      var it := items[id];
      if it.Expired(now) {
        items := items - {id};
        used := used - |it.data|;
        return Err(ItemExpired);
      }
      return Info(|it.data|, it.expiry);
    }
  }

  /** The sidecar of a blob. */
  datatype Sidecar = Sidecar(size: nat, expiry: Option<int>) {
    predicate Expired(now: int) { expiry.Some? && now > expiry.value }
  }

  const BUFFER: nat := 0x10_0000

  /** The copying loop of LocalProvider.Put: exactly `size` bytes, through a reused buffer, looking at
      the context before each read. */
  method CopyToTemp(looks: nat -> bool, r: Source, size: nat) returns (tmp: bytes, failure: Option<StoreErr>)
    requires r.Valid() && r.pos == 0
    modifies r
    ensures failure == None ==> size <= |r.data| && tmp == r.data[..size]
    ensures failure.Some? ==> failure == Some(ShortRead) || failure == Some(Cancelled)
    ensures failure == Some(ShortRead) ==> |r.data| < size
    ensures failure == Some(Cancelled) ==> exists k :: looks(k)
  {
    tmp := [];
    var look: nat := 1;
    var buf := new byte[BUFFER];
    while |tmp| < size
      invariant r.Valid() && r.pos == |tmp| <= size && tmp == r.data[..|tmp|]
      decreases size - |tmp|
    {
      if looks(look) { return tmp, Some(Cancelled); }
      look := look + 1;
      var want: nat := if size - |tmp| < BUFFER then size - |tmp| else BUFFER;
      ghost var at := |tmp|;
      var n, err := r.ReadFull(buf, want);
      assert r.data[..at + n] == r.data[..at] + r.data[at..at + n];
      tmp := tmp + buf[..n];
      if err != NoErr { return tmp, Some(ShortRead); }
    }
    failure := None;
  }

  class LocalProvider {
    const maxBytes: int64
    var bins: map<string, bytes>
    var metas: map<string, Sidecar>

    /** Blobs and sidecars come in pairs that agree on the size. */
    ghost predicate Valid()
      reads this
    {
      && maxBytes > 0
      && bins.Keys == metas.Keys
      && forall id :: id in metas ==> StorageId(id) && metas[id].size == |bins[id]|
    }

    ghost function Contents(): Store
      requires Valid()
      reads this
    {
      map id | id in metas :: Item(bins[id], metas[id].expiry)
    }

    constructor (maxBytes: int64)
      ensures Valid() && Contents() == map[] && this.maxBytes == if maxBytes <= 0 then DEFAULT_QUOTA else maxBytes
    {
      this.maxBytes := if maxBytes <= 0 then DEFAULT_QUOTA else maxBytes;
      bins, metas := map[], map[];
    }

    /** dirUsed: the sum of the payload sizes. */
    method DirUsed() returns (total: nat)
      requires Valid()
      ensures total == Used(Contents())
    {
      total := 0;
      var listing := bins.Keys;
      ghost var done: set<string> := {};
      ghost var sizes := Sizes(Contents());
      assert Part(sizes, done) == map[];
      while listing != {}
        invariant listing <= bins.Keys && done == bins.Keys - listing
        invariant total == Total(Part(sizes, done))
        decreases |listing|
      {
        var name :| name in listing;
        TotalMore(sizes, done, name);
        total := total + |bins[name]|;
        listing := listing - {name};
        done := done + {name};
      }
      assert Part(sizes, done) == sizes;
    }

    /** Put: check, copy `size` bytes to a temporary file, then move blob and sidecar into place.
        `looks` is the context at each look; `broken` says that the disk fails before the move. */
    method Put(looks: nat -> bool, broken: bool, id: string, r: Source, size: int64, expiry: Option<int>)
      returns (reply: Reply)
      requires Valid() && r.Valid() && r.pos == 0
      modifies this, r
      ensures Valid()
      ensures var u := Upload(id, r.data, r.broken, size, expiry, looks(0));
        var verdict := LocalVerdict(maxBytes, old(Used(Contents())), u);
        && (reply.Done? || reply.Err?)
        && (reply.Done? ==> verdict.Done?)
        && Contents() == Stored(old(Contents()), u, reply)
        && (!broken && (forall k :: !looks(k)) ==> reply == verdict)
    {
      hide Used, StorageId;
      if !StorageId(id) { return Err(BadId); }
      if looks(0) { return Err(Cancelled); }
      if size < 0 { return Err(NegativeSize); }
      var used := DirUsed();
      if size > maxBytes || used + size > maxBytes { return Err(OverQuota); }
      if broken { return Err(IoError); }
      var tmp, failure := CopyToTemp(looks, r, size);
      if failure.Some? { return Err(failure.value); }
      Install(id, tmp, expiry);
      return Done;
    }

    /** The two renames: the blob, then its sidecar. */
    method Install(id: string, blob: bytes, expiry: Option<int>)
      requires Valid() && StorageId(id)
      modifies this
      ensures Valid() && Contents() == old(Contents())[id := Item(blob, expiry)]
    {
      hide StorageId;
      bins := bins[id := blob];
      metas := metas[id := Sidecar(|blob|, expiry)];
    }

    method Remove(id: string)
      requires Valid()
      modifies this
      ensures Valid() && Contents() == old(Contents()) - {id} && metas.Keys == old(metas.Keys) - {id}
    {
      bins := bins - {id};
      metas := metas - {id};
    }

    method Get(cancelled: bool, id: string, offset: int64, now: int) returns (reply: Reply)
      requires Valid()
      modifies this
      ensures Valid()
      ensures (Contents(), reply) == if cancelled then (old(Contents()), Err(Cancelled)) else LocalStep(maxBytes, old(Contents()), Gets(id, offset, now))
    {
      hide Used, StorageId;
      if cancelled { return Err(Cancelled); }
      if !StorageId(id) { return Err(BadId); }
      if id !in metas { return Err(NotFound); }
      var m := metas[id];
      if m.Expired(now) {
        Remove(id);
        return Err(ItemExpired);
      }
      if offset < 0 || offset > m.size { return Err(BadOffset); }
      return Data(bins[id][offset..]);
    }

    method Delete(cancelled: bool, id: string) returns (reply: Reply)
      requires Valid()
      modifies this
      ensures Valid()
      ensures (Contents(), reply) == if cancelled then (old(Contents()), Err(Cancelled)) else LocalStep(maxBytes, old(Contents()), Deletes(id))
    {
      hide Used, StorageId;
      if cancelled { return Err(Cancelled); }
      if !StorageId(id) { return Err(BadId); }
      Remove(id);
      return Done;
    }

    method Exists(cancelled: bool, id: string, now: int) returns (reply: Reply)
      requires Valid()
      modifies this
      ensures Valid()
      ensures (Contents(), reply) == if cancelled then (old(Contents()), Err(Cancelled)) else LocalStep(maxBytes, old(Contents()), LooksUp(id, now))
    {
      hide Used, StorageId;
      if cancelled { return Err(Cancelled); }
      if id !in metas { return Is(false); }
      if metas[id].Expired(now) {
        Remove(id);
        return Is(false);
      }
      return Is(id in bins);
    }

    method Stat(cancelled: bool, id: string, now: int) returns (reply: Reply)
      requires Valid()
      modifies this
      ensures Valid()
      ensures (Contents(), reply) == if cancelled then (old(Contents()), Err(Cancelled)) else LocalStep(maxBytes, old(Contents()), Stats(id, now))
    {
      hide Used, StorageId;
      if cancelled { return Err(Cancelled); }
      if id !in metas { return Err(NotFound); }
      var m := metas[id];
      if m.Expired(now) {
        Remove(id);
        return Err(ItemExpired);
      }
      return Info(m.size, m.expiry);
    }

    /** Health sweeps: every expired blob goes, no other. */
    method Sweep(now: int)
      requires Valid()
      modifies this
      ensures Valid() && Contents() == Swept(old(Contents()), {}, now)
    {
      hide StorageId, Swept;
      ghost var s := Contents();
      var listing := metas.Keys;
      assert s.Keys == listing;
      NothingSwept(s, now);
      while listing != {}
        invariant Valid() && listing <= metas.Keys
        invariant Contents() == Swept(s, listing, now)
        decreases |listing|
      {
        var id :| id in listing;
        assert id in Contents();
        SweptMore(s, listing, id, now);
        listing := listing - {id};
        if metas[id].Expired(now) {
          Remove(id);
        }
      }
    }
  }
}
