/** The expiring map that the memory and the local store both are, the rules by which each accepts
    a Put, and the accounting of the memory store. */
module Stores {
  import opened Bytes
  import opened Files
  import opened Ids
  import opened Totals

  /** A blob; no expiry is the zero time. */
  datatype Item = Item(data: bytes, expiry: Option<int>) {
    predicate Expired(now: int) { expiry.Some? && now > expiry.value }
  }

  type Store = map<string, Item>

  datatype StoreErr = BadId | Cancelled | NegativeSize | OverQuota | ShortRead | IoError | NotFound | ItemExpired | BadOffset

  datatype Reply = Done | Data(data: bytes) | Info(size: nat, expiry: Option<int>) | Is(there: bool) | Err(err: StoreErr)

  // ---------- the expiring map ----------

  /** A read of an expired entry drops it. */
  function Reaped(s: Store, id: string, now: int): Store {
    if id in s && s[id].Expired(now) then s - {id} else s
  }

  function Get(s: Store, id: string, offset: int64, now: int): Reply {
    if id !in s then Err(NotFound)
    else if s[id].Expired(now) then Err(ItemExpired)
    else if offset < 0 || offset > |s[id].data| then Err(BadOffset)
    else Data(s[id].data[offset..])
  }

  function Exists(s: Store, id: string, now: int): Reply { Is(id in s && !s[id].Expired(now)) }

  function Stat(s: Store, id: string, now: int): Reply {
    if id !in s then Err(NotFound)
    else if s[id].Expired(now) then Err(ItemExpired)
    else Info(|s[id].data|, s[id].expiry)
  }

  /** A sweep that has yet to look at the identifiers in `ahead`: no other expired blob is left. */
  function Swept(s: Store, ahead: set<string>, now: int): Store {
    map id | id in s && (id in ahead || !s[id].Expired(now)) :: s[id]
  }

  lemma NothingSwept(s: Store, now: int)
    ensures Swept(s, s.Keys, now) == s
  {}

  /** Looking at one more blob. */
  lemma SweptMore(s: Store, ahead: set<string>, id: string, now: int)
    requires id in ahead && id in Swept(s, ahead, now)
    ensures id in s && Swept(s, ahead, now)[id] == s[id]
    ensures Swept(s, ahead - {id}, now) == if s[id].Expired(now) then Swept(s, ahead, now) - {id} else Swept(s, ahead, now)
  {}

  // ---------- bytes stored ----------

  ghost function Sizes(s: Store): map<string, nat> { map id | id in s :: |s[id].data| }

  ghost function Used(s: Store): nat { Total(Sizes(s)) }

  function SizeOf(s: Store, id: string): nat { if id in s then |s[id].data| else 0 }

  /** Storing and deleting move the total by exactly the bytes concerned. */
  lemma UsedAfter(s: Store, id: string, item: Item)
    ensures SizeOf(s, id) <= Used(s)
    ensures Used(s[id := item]) == Used(s) - SizeOf(s, id) + |item.data|
    ensures Used(s - {id}) == Used(s) - SizeOf(s, id)
  {
    TotalWithout(Sizes(s), id);
    TotalUpdate(Sizes(s), id, |item.data|);
    assert Sizes(s[id := item]) == Sizes(s)[id := |item.data|];
    assert Sizes(s - {id}) == Sizes(s) - {id};
  }

  // ---------- the two stores' Puts ----------

  /** A Put: what the reader holds and whether it fails after it, the announced size, the expiry,
      and whether the caller's context is done. */
  datatype Upload = Upload(id: string, data: bytes, broken: bool, size: int64, expiry: Option<int>, cancelled: bool)

  /** MemoryProvider.Put: the reader must hold exactly `size` bytes; the bytes of an overwritten
      blob are given back before the quota is checked. `used` is the byte counter. */
  function MemoryVerdict(max: int64, used: int, s: Store, u: Upload): Reply
    requires max > 0
  {
    if !StorageId(u.id) then Err(BadId)
    else if u.cancelled then Err(Cancelled)
    else if u.size < 0 then Err(NegativeSize)
    else
      var data := Clip(u.data, OneMore(max));
      if u.broken && |data| < OneMore(max) then Err(IoError)
      else if |data| > max then Err(OverQuota)
      else if |data| != u.size then Err(ShortRead)
      else if used - SizeOf(s, u.id) + u.size > max then Err(OverQuota)
      else Done
  }

  /** LocalProvider.Put, if the context stays alive and the disk works: the reader must hold at least
      `size` bytes; an overwritten blob still counts when the quota is checked. */
  function LocalVerdict(max: int64, used: int, u: Upload): Reply
    requires max > 0
  {
    if !StorageId(u.id) then Err(BadId)
    else if u.cancelled then Err(Cancelled)
    else if u.size < 0 then Err(NegativeSize)
    else if u.size > max || used + u.size > max then Err(OverQuota)
    else if |u.data| < u.size then Err(ShortRead)
    else Done
  }

  /** An accepted Put binds the identifier to the first `size` bytes; a rejected one changes nothing. */
  function Stored(s: Store, u: Upload, verdict: Reply): Store {
    if verdict.Done? && 0 <= u.size then s[u.id := Item(Clip(u.data, u.size), u.expiry)] else s
  }

  /** The largest int64 as a quota: the memory store's read limit wraps, it reads nothing. */
  const NO_LIMIT: int := I64 - 1

  /** From equal contents, when the reader holds exactly the announced bytes: whatever the local
      store accepts, the memory store accepts, except under the quota 2^63-1 where it takes only
      empty blobs. It accepts more exactly when the overwritten blob makes the difference. */
  lemma MemoryAcceptsWhatLocalAccepts(max: int64, s: Store, u: Upload)
    requires max > 0 && |u.data| == u.size && !u.broken
    ensures LocalVerdict(max, Used(s), u).Done? && (max != NO_LIMIT || u.size == 0) ==> MemoryVerdict(max, Used(s), s, u).Done?
    ensures max != NO_LIMIT && StorageId(u.id) && !u.cancelled ==>
        ((MemoryVerdict(max, Used(s), s, u).Done? && !LocalVerdict(max, Used(s), u).Done?)
         == (Used(s) - SizeOf(s, u.id) + u.size <= max < Used(s) + u.size))
    ensures max == NO_LIMIT && u.size > 0 ==> !MemoryVerdict(max, Used(s), s, u).Done?
    ensures MemoryVerdict(max, Used(s), s, u).Done? ==>
        Stored(s, u, MemoryVerdict(max, Used(s), s, u)) == s[u.id := Item(u.data, u.expiry)]
  {
    UsedAfter(s, u.id, Item([], None));
    assert u.data[..|u.data|] == u.data;
  }

  // ---------- runs ----------

  datatype Op =
    | Puts(upload: Upload)
    | Gets(id: string, offset: int64, now: int)
    | Deletes(id: string)
    | LooksUp(id: string, now: int)
    | Stats(id: string, now: int)

  /** The memory store: the map and its counter. */
  datatype Memory = Memory(items: Store, used: int)

  function MemoryStep(max: int64, m: Memory, op: Op): (Memory, Reply)
    requires max > 0
  {
    match op
    case Puts(u) =>
      var verdict := MemoryVerdict(max, m.used, m.items, u);
      if verdict.Done? then
        (Memory(m.items[u.id := Item(Clip(u.data, OneMore(max)), u.expiry)], m.used - SizeOf(m.items, u.id) + u.size), Done)
      else (m, verdict)
    case Gets(id, offset, now) => (MemoryReap(m, id, now), Get(m.items, id, offset, now))
    case Deletes(id) => (MemoryDrop(m, id), Done)
    case LooksUp(id, now) => (MemoryReap(m, id, now), Exists(m.items, id, now))
    case Stats(id, now) => (MemoryReap(m, id, now), Stat(m.items, id, now))
  }

  function MemoryDrop(m: Memory, id: string): Memory {
    if id in m.items then Memory(m.items - {id}, m.used - |m.items[id].data|) else m
  }

  function MemoryReap(m: Memory, id: string, now: int): Memory {
    if id in m.items && m.items[id].Expired(now) then MemoryDrop(m, id) else m
  }

  function MemoryRun(max: int64, m: Memory, ops: seq<Op>): Memory
    requires max > 0
    decreases |ops|
  {
    if ops == [] then m else MemoryRun(max, MemoryStep(max, m, ops[0]).0, ops[1..])
  }

  /** Over every run the counter equals the bytes stored and stays within the quota. */
  lemma {:induction false} MemoryAccounting(max: int64, m: Memory, ops: seq<Op>)
    requires max > 0 && m.used == Used(m.items) <= max
    ensures var m' := MemoryRun(max, m, ops);
      m'.used == Used(m'.items) <= max
    decreases |ops|
  {
    if ops != [] {
      MemoryStepFacts(max, m, ops[0]);
      hide MemoryStep, Used;
      MemoryAccounting(max, MemoryStep(max, m, ops[0]).0, ops[1..]);
    }
  }

  /** One step of the specification both stores are held to. */
  ghost function MapStep(s: Store, op: Op, putVerdict: Reply): (Store, Reply) {
    match op
    case Puts(u) => (Stored(s, u, putVerdict), putVerdict)
    case Gets(id, offset, now) => (Reaped(s, id, now), Get(s, id, offset, now))
    case Deletes(id) => (s - {id}, Done)
    case LooksUp(id, now) => (Reaped(s, id, now), Exists(s, id, now))
    case Stats(id, now) => (Reaped(s, id, now), Stat(s, id, now))
  }

  lemma MemoryStepFacts(max: int64, m: Memory, op: Op)
    requires max > 0 && m.used == Used(m.items) <= max
    ensures var (m', reply) := MemoryStep(max, m, op);
      && m'.used == Used(m'.items) <= max
      && (m'.items, reply) == MapStep(m.items, op, if op.Puts? then MemoryVerdict(max, m.used, m.items, op.upload) else Done)
  {
    hide Used, StorageId;
    match op
    case Puts(u) =>
      UsedAfter(m.items, u.id, Item(Clip(u.data, OneMore(max)), u.expiry));
    case Gets(id, _, _) => UsedAfter(m.items, id, Item([], None));
    case Deletes(id) =>
      UsedAfter(m.items, id, Item([], None));
      assert id !in m.items ==> m.items - {id} == m.items;
    case LooksUp(id, _) => UsedAfter(m.items, id, Item([], None));
    case Stats(id, _) => UsedAfter(m.items, id, Item([], None));
  }

  /** The local store: LocalProvider checks the identifier in Get and Delete as well. */
  ghost function LocalStep(max: int64, s: Store, op: Op): (Store, Reply)
    requires max > 0
  {
    if (op.Gets? || op.Deletes?) && !StorageId(op.id) then (s, Err(BadId))
    else MapStep(s, op, if op.Puts? then LocalVerdict(max, Used(s), op.upload) else Done)
  }

  ghost predicate ValidKeys(s: Store) { forall id :: id in s ==> StorageId(id) }

  /** Two replies a caller can tell apart only by the kind of error. */
  predicate Alike(a: Reply, b: Reply) { a == b || (a.Err? && b.Err?) || (a == Done && b == Err(BadId)) }

  /** The same call on equal contents: equal contents after it, and equal replies, except that the
      local store reports a bad identifier where the memory store reports a missing entry (or, for
      Delete, nothing). For a Put both must take it or both refuse it. */
  lemma SameStep(max: int64, m: Memory, op: Op)
    requires max > 0 && m.used == Used(m.items) <= max && ValidKeys(m.items)
    requires op.Puts? ==>
        (MemoryVerdict(max, m.used, m.items, op.upload).Done? <==> LocalVerdict(max, m.used, op.upload).Done?)
    ensures var (m', a) := MemoryStep(max, m, op);
      var (s', b) := LocalStep(max, m.items, op);
      && m'.items == s' && ValidKeys(s') && Alike(a, b)
      && (!op.Puts? && StorageId(op.id) ==> a == b)
  {
    MemoryStepFacts(max, m, op);
    hide Used, StorageId, MemoryStep;
    if op.Deletes? && op.id !in m.items {
      assert m.items - {op.id} == m.items;
    }
  }

  ghost function LocalRun(max: int64, s: Store, ops: seq<Op>): Store
    requires max > 0
    decreases |ops|
  {
    if ops == [] then s else LocalRun(max, LocalStep(max, s, ops[0]).0, ops[1..])
  }

  /** Along the run both stores take, or both refuse, each Put. */
  ghost predicate TakenAlike(max: int64, m: Memory, ops: seq<Op>)
    requires max > 0
    decreases |ops|
  {
    ops == [] ||
    ((ops[0].Puts? ==>
        (MemoryVerdict(max, m.used, m.items, ops[0].upload).Done? <==> LocalVerdict(max, m.used, ops[0].upload).Done?))
     && TakenAlike(max, MemoryStep(max, m, ops[0]).0, ops[1..]))
  }

  /** Over every such run the two stores hold the same blobs. */
  lemma {:induction false} SameRun(max: int64, m: Memory, ops: seq<Op>)
    requires max > 0 && m.used == Used(m.items) <= max && ValidKeys(m.items) && TakenAlike(max, m, ops)
    ensures MemoryRun(max, m, ops).items == LocalRun(max, m.items, ops)
    decreases |ops|
  {
    if ops != [] {
      SameStep(max, m, ops[0]);
      MemoryStepFacts(max, m, ops[0]);
      hide MemoryStep, LocalStep, Used, ValidKeys, MemoryVerdict, LocalVerdict;
      SameRun(max, MemoryStep(max, m, ops[0]).0, ops[1..]);
    }
  }

  /** Reading back: between a Put and the expiry, whatever is done to other identifiers, Get returns
      the stored bytes from the offset on. */
  lemma {:induction false} PutThenGet(s: Store, id: string, item: Item, others: seq<Op>, verdicts: seq<Reply>, offset: int64, now: int)
    requires |verdicts| == |others| && id in s && s[id] == item && 0 <= offset <= |item.data| && !item.Expired(now)
    requires forall i :: 0 <= i < |others| ==> LeavesAlone(others[i], id, now)
    ensures Get(MapRun(s, others, verdicts), id, offset, now) == Data(item.data[offset..])
    decreases |others|
  {
    if others != [] {
      assert LeavesAlone(others[0], id, now);
      var s' := MapStep(s, others[0], verdicts[0]).0;
      assert forall i :: 0 <= i < |others| - 1 ==> others[1..][i] == others[i + 1];
      PutThenGet(s', id, item, others[1..], verdicts[1..], offset, now);
    }
  }

  ghost function MapRun(s: Store, ops: seq<Op>, verdicts: seq<Reply>): Store
    requires |verdicts| == |ops|
    decreases |ops|
  {
    if ops == [] then s else MapRun(MapStep(s, ops[0], verdicts[0]).0, ops[1..], verdicts[1..])
  }

  /** Not a Put or Delete of `id`; reads of it are no later than `now`. */
  predicate LeavesAlone(op: Op, id: string, now: int) {
    match op
    case Puts(u) => u.id != id
    case Deletes(i) => i != id
    case Gets(_, _, t) => t <= now
    case LooksUp(_, t) => t <= now
    case Stats(_, t) => t <= now
  }
}
