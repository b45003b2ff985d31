/** The two ends of a streaming loop: a source read with io.ReadFull into a reused buffer, and a
    destination file on a disk that may fill up. */
module Files {
  import opened Bytes
  import opened Primitives

  /** What io.ReadFull returns beside the count. */
  datatype ReadErr = NoErr | EOF | UnexpectedEOF | Broken

  /** `b` cut to the first `n` bytes. */
  function Clip(b: bytes, n: nat): bytes { b[..Min(n, |b|)] }

  lemma ClipAppend(a: bytes, b: bytes, n: nat)
    ensures Clip(Clip(a, n) + b, n) == Clip(a + b, n)
  {}

  lemma ClipPrefix(a: bytes, b: bytes, n: nat)
    requires a <= b && |a| >= n
    ensures Clip(a, n) == Clip(b, n)
  {}

  /** Write `p` at offset `at` of a file at least that long. */
  function Overlay(file: bytes, at: nat, p: bytes): bytes
    requires at <= |file|
  {
    file[..at] + p + (if at + |p| <= |file| then file[at + |p|..] else [])
  }

  /** Seek and write: a write past the end leaves a gap of zeros. */
  function WriteAt(file: bytes, at: nat, p: bytes): bytes {
    if at <= |file| then Overlay(file, at, p) else file + Zeros(at - |file|) + p
  }

  /** ftruncate. */
  function Resized(file: bytes, n: nat): (r: bytes)
    ensures |r| == n
  {
    if n <= |file| then file[..n] else file + Zeros(n - |file|)
  }

  /** io.CopyN or io.LimitReader asked for one byte more than `n`, to notice one too many. In int64
      the sum wraps at the maximum to a negative number, and nothing at all is read. */
  function OneMore(n: nat): nat
    requires n < I64
  {
    if n + 1 < I64 then n + 1 else 0
  }

  /** An open file positioned at `pos`. Reading past `limit` ends the stream, or fails when
      `broken` (an I/O error of the device). */
  class Source {
    const data: bytes
    const broken: bool
    var pos: nat

    ghost predicate Valid()
      reads this
    {
      pos <= |data|
    }

    constructor (data: bytes, broken: bool)
      ensures this.data == data && this.broken == broken && pos == 0
    {
      this.data, this.broken, pos := data, broken, 0;
    }

    /** io.CopyN to io.Discard. */
    method Skip(n: nat) returns (ok: bool)
      requires Valid()
      modifies this`pos
      ensures Valid() && pos == old(pos) + Min(n, |data| - old(pos))
      ensures ok <==> n <= |data| - old(pos)
    {
      ok := n <= |data| - pos;
      pos := pos + if ok then n else |data| - pos;
    }

    /** io.ReadAll of io.LimitReader(r, limit). */
    method ReadAll(limit: nat) returns (b: bytes, ok: bool)
      requires Valid()
      modifies this`pos
      ensures Valid() && pos == old(pos) + |b| && b == Clip(data[old(pos)..], limit)
      ensures ok <==> !broken || |b| == limit
    {
      b := Clip(data[pos..], limit);
      ok := !broken || |b| == limit;
      pos := pos + |b|;
    }

    /** io.ReadFull: fill `buf[..want]`, or report why it could not be filled. Nothing is promised about
        the buffer past the count: a loop that reuses it must cut it. */
    method ReadFull(buf: array<byte>, want: nat) returns (n: nat, err: ReadErr)
      requires Valid() && want <= buf.Length
      modifies this`pos, buf
      ensures Valid() && n == Min(want, |data| - old(pos)) && pos == old(pos) + n
      ensures buf[..n] == data[old(pos)..pos]
      ensures err ==
        if n == want then NoErr
        else if broken then Broken
        else if n == 0 then EOF else UnexpectedEOF
    {
      n := if want <= |data| - pos then want else |data| - pos;
      for i := 0 to n
        invariant pos == old(pos) && pos + n <= |data|
        invariant buf[..i] == data[pos..pos + i]
      {
        buf[i] := data[pos + i];
      }
      pos := pos + n;
      err := if n == want then NoErr else if broken then Broken else if n == 0 then EOF else UnexpectedEOF;
    }
  }

  /** Fill the reused buffer and take what was read: the next chunk of the source, and what this
      leaves of it. */
  method ReadChunk(src: Source, buf: array<byte>) returns (chunk: bytes, err: ReadErr)
    requires src.Valid()
    modifies src`pos, buf
    ensures src.Valid() && src.pos == old(src.pos) + |chunk| && |chunk| == Min(buf.Length, |src.data| - old(src.pos))
    ensures src.data[old(src.pos)..] == chunk + src.data[src.pos..]
    ensures src.data[..src.pos] == src.data[..old(src.pos)] + chunk
    ensures src.data[src.pos..] == [] || |chunk| == buf.Length
    ensures err ==
      if |chunk| == buf.Length then NoErr
      else if src.broken then Broken
      else if chunk == [] then EOF else UnexpectedEOF
  {
    var n;
    n, err := src.ReadFull(buf, buf.Length);
    chunk := buf[..n];
  }

  /** A destination path: absent, or a file of at most `capacity` bytes. */
  class File {
    const capacity: nat
    var content: Option<bytes>

    constructor (capacity: nat, content: Option<bytes>)
      ensures this.capacity == capacity && this.content == content
    {
      this.capacity, this.content := capacity, content;
    }

    /** os.Create: O_CREATE with O_TRUNC. */
    method Create()
      modifies this
      ensures content == Some([])
    {
      content := Some([]);
    }

    /** Append; a full disk takes what fits and reports failure. */
    method Write(b: bytes) returns (ok: bool)
      requires content.Some?
      modifies this
      ensures content == Some(Clip(old(content).value + b, capacity))
      ensures ok <==> |old(content).value + b| <= capacity
      ensures ok ==> content == Some(old(content).value + b)
    {
      var all := content.value + b;
      content := Some(Clip(all, capacity));
      ok := |all| <= capacity;
      assert all[..|all|] == all;
    }

    method Remove()
      modifies this
      ensures content == None
    {
      content := None;
    }
  }
}
