/** The relay envelope: BE32 length of the manifest, the manifest, the sealed payload. */
module Envelope {
  import opened Bytes
  import opened Files

  const MAX_MANIFEST: nat := 0x100_0000

  /** `manifest` is the marshalled form; its length is cut to 32 bits. */
  function Join(manifest: bytes, sealed: bytes): bytes {
    BE(|manifest| % U32, 4) + manifest + sealed
  }

  function Split(e: bytes): Option<(bytes, bytes)> {
    if |e| < 4 then None
    else
      var n := FromBE(e[..4]);
      if n == 0 || n > MAX_MANIFEST || |e| < 4 + n then None else Some((e[4..4 + n], e[4 + n..]))
  }

  method WriteEnvelope(manifest: bytes, sealed: Source, out: File) returns (ok: bool)
    requires sealed.Valid() && sealed.pos == 0
    modifies sealed, out
    ensures out.content == Some(Clip(Join(manifest, sealed.data), out.capacity))
    ensures ok <==> !sealed.broken && |Join(manifest, sealed.data)| <= out.capacity
  {
    hide BE, Clip;
    out.Create();
    var lb := BE(|manifest| % U32, 4);
    ghost var all := Join(manifest, sealed.data);
    assert [] + lb == lb && all == lb + (manifest + sealed.data) && all == (lb + manifest) + sealed.data;
    ok := out.Write(lb);
    if !ok {
      ClipPrefix(lb, all, out.capacity);
      return;
    }
    ok := out.Write(manifest);
    if !ok {
      ClipPrefix(lb + manifest, all, out.capacity);
      return;
    }
    var rest, read := sealed.ReadAll(|sealed.data| + 1);
    assert sealed.data[0..] == sealed.data;
    WholeClip(sealed.data, |sealed.data| + 1);
    ok := out.Write(rest);
    ok := ok && read;
  }

  lemma WholeClip(b: bytes, n: nat)
    requires |b| <= n
    ensures Clip(b, n) == b
  {}

  /** io.Copy of what is left of the source behind what is in the file. */
  method CopyRest(src: Source, out: File) returns (ok: bool)
    requires src.Valid() && out.content == Some([])
    modifies src, out
    ensures out.content == Some(Clip(src.data[old(src.pos)..], out.capacity))
    ensures ok <==> !src.broken && |src.data[old(src.pos)..]| <= out.capacity
  {
    WholeClip(src.data[src.pos..], |src.data| + 1);
    hide Clip;
    var rest, read := src.ReadAll(|src.data| + 1);
    assert [] + rest == rest;
    var written := out.Write(rest);
    ok := written && read;
  }

  /** `parses` says which byte strings unmarshal to a manifest. */
  method SplitEnvelope(env: Source, out: File, parses: bytes -> bool) returns (manifest: Option<bytes>)
    requires env.Valid() && env.pos == 0
    modifies env, out
    ensures var parts := Split(env.data);
      var taken := parts.Some? && parses(parts.value.0);
      && out.content == (if taken then Some(Clip(parts.value.1, out.capacity)) else old(out.content))
      && manifest == if taken && !env.broken && |parts.value.1| <= out.capacity then Some(parts.value.0) else None
  {
    hide FromBE, Clip, Split;
    var lb := new byte[4];
    assert env.data[0..] == env.data;
    var len, err := ReadChunk(env, lb);
    ghost var behind := env.data[env.pos..];
    if err != NoErr {
      ShortEnvelope(env.data);
      return None;
    }
    var mlen := FromBE(len);
    if mlen == 0 || mlen > MAX_MANIFEST {
      BadLength(len, behind);
      return None;
    }
    var buf := new byte[mlen];
    var m;
    m, err := ReadChunk(env, buf);
    if err != NoErr {
      BadLength(len, behind);
      return None;
    }
    ghost var sealed := env.data[env.pos..];
    GoodEnvelope(len, m, sealed);
    if !parses(m) {
      return None;
    }
    out.Create();
    var copied := CopyRest(env, out);
    if !copied {
      return None;
    }
    return Some(m);
  }

  lemma ShortEnvelope(e: bytes)
    requires |e| < 4
    ensures Split(e) == None
  {}

  lemma BadLength(len: bytes, rest: bytes)
    requires |len| == 4 && var n := FromBE(len); n == 0 || n > MAX_MANIFEST || n > |rest|
    ensures Split(len + rest) == None
  {
    hide FromBE;
    assert (len + rest)[..4] == len;
  }

  lemma GoodEnvelope(len: bytes, m: bytes, rest: bytes)
    requires |len| == 4 && 0 < |m| == FromBE(len) <= MAX_MANIFEST
    ensures Split(len + (m + rest)) == Some((m, rest))
  {
    hide FromBE;
    var e := len + (m + rest);
    assert e[..4] == len && e[4..4 + |m|] == m && e[4 + |m|..] == rest;
  }

  /** An envelope gives back exactly what went in if and only if the manifest has between 1 byte and
      16 MiB. (Beyond 4 GiB the length wraps, and a piece of the manifest may pass for all of it.) */
  lemma SplitUndoesJoin(manifest: bytes, sealed: bytes)
    ensures Split(Join(manifest, sealed)) == Some((manifest, sealed)) <==> 1 <= |manifest| <= MAX_MANIFEST
  {
    var e := Join(manifest, sealed);
    Widths();
    FromBEOfBE(|manifest| % U32, 4);
    hide BE, FromBE;
    assert e[..4] == BE(|manifest| % U32, 4);
    if |manifest| < U32 {
      assert e[4..4 + |manifest|] == manifest && e[4 + |manifest|..] == sealed;
    }
  }

  /** Splitting accepts only envelopes: what it accepts is the envelope of what it returns. */
  lemma SplitIsCanonical(e: bytes)
    ensures Split(e).Some? ==> Join(Split(e).value.0, Split(e).value.1) == e
  {
    if Split(e).Some? {
      BEOfFromBE(e[..4]);
      hide BE, FromBE;
      var (m, s) := Split(e).value;
      assert e == e[..4] + m + s;
    }
  }
}
