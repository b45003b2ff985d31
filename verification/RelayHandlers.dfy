/** The relay's handlers as they change the data directory and the token index, each proved against
    its step in module RelayServer. One method is one critical section of the per-drop lock. */
module RelayHandlers {
  import opened Bytes
  import opened ContentRange
  import opened Files
  import opened Ids
  import opened Totals
  import opened RelayServer

  class Server {
    const quota: int64
    const hash: TokenHash
    var metas: map<string, Meta>
    var bins: map<string, bytes>
    var tokens: map<string, string>

    /** Every record names the drop it is filed under. */
    ghost predicate Valid()
      reads this
    {
      forall id :: id in metas ==> metas[id].id == id
    }

    ghost function State(): Relay
      reads this
    {
      Relay(metas, bins, tokens)
    }

    /** A server started on a directory: reloadTokens rebuilds the index. */
    constructor (quota: int64, hash: TokenHash, metas: map<string, Meta>, bins: map<string, bytes>)
      requires forall id :: id in metas ==> metas[id].id == id
      ensures Valid() && this.quota == quota && this.hash == hash
      ensures State() == Relay(metas, bins, Mirror(metas))
    {
      this.quota, this.hash, this.metas, this.bins, tokens := quota, hash, metas, bins, map[];
      new;
      ReloadTokens();
    }

    method ReloadTokens()
      requires Valid() && tokens == map[]
      modifies this`tokens
      ensures tokens == Mirror(metas)
    {
      var listing := metas.Keys;
      while listing != {}
        invariant listing <= metas.Keys
        invariant tokens.Keys == metas.Keys - listing
        invariant forall id :: id in tokens ==> tokens[id] == metas[id].tokenHash
        decreases |listing|
      {
        var name :| name in listing;
        var m := metas[name];
        tokens := tokens[m.id := m.tokenHash];
        listing := listing - {name};
      }
    }

    /** storedBytes: the sum of the payload sizes, in an int64. */
    method CountStored() returns (total: int64)
      ensures total == Wrap64(StoredBytes(bins))
    {
      total := 0;
      var listing := bins.Keys;
      ghost var done: set<string> := {};
      assert Part(Sizes(bins), done) == map[];
      while listing != {}
        invariant listing <= bins.Keys && done == bins.Keys - listing
        invariant total == Wrap64(Total(Part(Sizes(bins), done)))
        decreases |listing|
      {
        var name :| name in listing;
        TotalMore(Sizes(bins), done, name);
        AddWraps(Total(Part(Sizes(bins), done)), |bins[name]|);
        total := Add64(total, Wrap64(|bins[name]|));
        listing := listing - {name};
        done := done + {name};
      }
      assert Part(Sizes(bins), done) == Sizes(bins);
    }

    method HandleCreate(q: CreateRequest, now: int, luck: CreateLuck) returns (reply: Reply)
      requires Valid()
      modifies this
      ensures Valid()
      ensures (State(), reply) == Create(hash, quota, Wrap64(StoredBytes(old(bins))), old(State()), q, now, luck)
    {
      if !RelayId(q.id) { return Refused(400); }
      if q.size <= 0 { return Refused(400); }
      if q.expiry.None? { return Refused(400); }
      if !(now < q.expiry.value) { return Refused(400); }
      if quota > 0 {
        var stored := CountStored();
        if Add64(stored, q.size) > quota { return Refused(507); }
      }
      if q.id in metas { return Refused(409); }
      if luck.token.None? { return Refused(500); }
      var m := Meta(q.id, q.size, q.expiry.value, q.oneTime, hash(luck.token.value), 0, false);
      if !luck.saved { return Refused(500); }
      var before := metas;
      metas := metas[m.id := m];
      if q.id in bins {
        metas := metas - {q.id};
        assert metas == before;
        return Refused(500);
      }
      bins := bins[q.id := []];
      tokens := tokens[q.id := m.tokenHash];
      return Created(luck.token.value);
    }

    method DeleteLocked(m: Meta)
      requires Valid()
      modifies this
      ensures Valid() && State() == Without(old(State()), m.id)
    {
      bins := bins - {m.id};
      metas := metas - {m.id};
      tokens := tokens - {m.id};
    }

    /** The target offset of a PUT, from the Content-Range header or the lack of one. */
    method WriteOffset(m: Meta, range: string) returns (t: Target)
      ensures t == OffsetOf(m, range)
    {
      var cr := TrimSpace(range);
      if cr != "" {
        var parsed := ParseContentRange(cr);
        if parsed.None? { return Nowhere(Refused(400)); }
        if parsed.value.total != m.size { return Nowhere(Refused(400)); }
        var off := parsed.value.start;
        if off != m.uploaded { return Nowhere(OffsetConflict(m.uploaded)); }
        return At(off);
      } else if m.uploaded != 0 {
        return Nowhere(OffsetConflict(m.uploaded));
      }
      return At(0);
    }

    method HandlePut(q: PutRequest, now: int, fate: PutFate) returns (reply: Reply)
      requires Valid()
      modifies this
      ensures Valid() && (State(), reply) == Put(hash, old(State()), q, now, fate)
    {
      hide RelayId, TokenOk, OffsetOf, WriteAt, Resized, OneMore;
      if !RelayId(q.id) { return Refused(400); }
      if q.id !in metas { return Refused(404); }
      var m := metas[q.id];
      if !TokenOk(hash, q.token, m.tokenHash) { return Refused(401); }
      if m.Expired(now) {
        DeleteLocked(m);
        return Refused(410);
      }
      var target := WriteOffset(m, q.range);
      if target.Nowhere? { return target.reply; }
      var off := target.off;
      var remain := m.size - off;
      if remain <= 0 { return Refused(400); }
      if q.id !in bins || !fate.found { return Refused(404); }
      if !fate.sought { return Refused(500); }
      var limit := OneMore(remain);
      var data := Clip(q.body, limit);
      var before := bins;
      bins := bins[q.id := WriteAt(bins[q.id], off, data)];
      var written := |data|;
      if q.torn && written < limit { return Refused(400); }
      if written > remain {
        if fate.cut {
          bins := bins[q.id := Resized(bins[q.id], off)];
          assert bins == before[q.id := bins[q.id]];
        }
        return Refused(400);
      }
      m := m.(uploaded := off + written);
      if !fate.saved { return Refused(500); }
      metas := metas[m.id := m];
      return Stored(q.id, m.uploaded, m.uploaded == m.size);
    }

    /** handleGet up to the point where it lets go of the lock and streams. */
    method HandleOpen(id: string, token: string, now: int) returns (reply: Reply)
      requires Valid()
      modifies this
      ensures Valid() && (State(), reply) == Open(hash, old(State()), id, token, now)
    {
      if !RelayId(id) { return Refused(400); }
      if id !in metas { return Refused(404); }
      var m := metas[id];
      if !TokenOk(hash, token, m.tokenHash) { return Refused(401); }
      if m.Expired(now) {
        DeleteLocked(m);
        return Refused(410);
      }
      if m.oneTime && m.servedFull {
        DeleteLocked(m);
        return Refused(404);
      }
      if id !in bins { return Refused(404); }
      return Content(bins[id]);
    }

    /** handleGet after streaming; `oneTime` was read from the record before. */
    method HandleServed(id: string, oneTime: bool, range: string)
      requires Valid()
      modifies this
      ensures Valid()
      ensures State() == if oneTime && TrimSpace(range) == "" then Served(old(State()), id) else old(State())
    {
      if oneTime && TrimSpace(range) == "" {
        if id in metas && !metas[id].servedFull {
          var cur := metas[id].(servedFull := true);
          DeleteLocked(cur);
        }
      }
    }

    /** handleMeta reads without the lock; if it finds the drop expired, `HandleExpired` follows. */
    method HandleMeta(id: string, token: string, now: int) returns (reply: Reply)
      ensures reply == Describe(hash, State(), id, token, now)
    {
      if !RelayId(id) { return Refused(400); }
      if id !in metas { return Refused(404); }
      var m := metas[id];
      if !TokenOk(hash, token, m.tokenHash) { return Refused(401); }
      if m.Expired(now) { return Refused(410); }
      return Described(m);
    }

    /** The rest of handleMeta for the expired record `m` it read before taking the lock. */
    method HandleExpired(m: Meta)
      requires Valid()
      modifies this
      ensures Valid() && State() == Without(old(State()), m.id)
    {
      DeleteLocked(m);
    }

    method HandleDelete(id: string, token: string) returns (reply: Reply)
      requires Valid()
      modifies this
      ensures Valid() && (State(), reply) == Delete(hash, old(State()), id, token)
    {
      if !RelayId(id) { return Refused(400); }
      if id !in metas { return Refused(404); }
      var m := metas[id];
      if !TokenOk(hash, token, m.tokenHash) { return Refused(401); }
      DeleteLocked(m);
      return Deleted;
    }

    /** The sweeper's pass over the directory: exactly the expired drops go, and are counted. */
    method SweepExpired(now: int) returns (removed: nat)
      requires Valid()
      modifies this
      ensures Valid() && State() == Sweep(old(State()), now)
      ensures removed == |old(metas)| - |metas|
    {
      hide SweptPast, RelayId;
      removed := 0;
      var listing := metas.Keys;
      ghost var s := State();
      NothingSwept(s, now);
      while listing != {}
        invariant listing <= metas.Keys && metas.Keys <= s.metas.Keys && Valid()
        invariant State() == SweptPast(s, listing, now) && removed == |s.metas| - |metas|
        decreases |listing|
      {
        var id :| id in listing;
        SweptMore(s, listing, id, now);
        listing := listing - {id};
        if RelayId(id) && id in metas && metas[id].Expired(now) {
          assert (metas - {id}).Keys == metas.Keys - {id};
          DeleteLocked(metas[id]);
          removed := removed + 1;
        }
      }
    }
  }

  lemma NothingSwept(s: Relay, now: int)
    ensures SweptPast(s, s.metas.Keys, now) == s
  {
    var r := SweptPast(s, s.metas.Keys, now);
    assert r.metas == s.metas && r.bins == s.bins && r.tokens == s.tokens;
  }

  /** Looking at one more drop. */
  lemma SweptMore(s: Relay, ahead: set<string>, id: string, now: int)
    requires id in ahead && id in s.metas
    ensures id in SweptPast(s, ahead, now).metas && SweptPast(s, ahead, now).metas[id] == s.metas[id]
    ensures SweptPast(s, ahead - {id}, now) ==
      if Stale(s, id, now) then Without(SweptPast(s, ahead, now), id) else SweptPast(s, ahead, now)
  {
    hide Stale;
    var r, r' := SweptPast(s, ahead, now), SweptPast(s, ahead - {id}, now);
    var before := set i | i in s.metas && i !in ahead && Stale(s, i, now);
    var after := set i | i in s.metas && i !in ahead - {id} && Stale(s, i, now);
    if Stale(s, id, now) {
      assert after == before + {id};
      assert r'.metas == r.metas - {id} && r'.bins == r.bins - {id} && r'.tokens == r.tokens - {id};
    } else {
      assert after == before;
    }
  }

  lemma AddWraps(a: nat, b: nat)
    ensures Add64(Wrap64(a), Wrap64(b)) == Wrap64(a + b)
  {
    var x, y := a % U64, b % U64;
    assert (a + b) % U64 == if x + y < U64 then x + y else x + y - U64;
  }
}
