/** Access to the file key: X25519 wrapping in its two implementations, and the access block of a
    manifest with its four modes. */
module Access {
  import opened Bytes
  import opened Primitives
  import opened ContentRange

  /** The primitives a lock uses: Argon2id and the UTF-8 form of a string beside the usual ones. */
  datatype Suite = Suite(aead: Aead, dh: Dh, hash: Hash, kdf: (string, bytes) -> bytes, utf8: string -> bytes)

  // ---------- X25519 wrapping ----------

  datatype Wrapped = Wrapped(data: bytes, ephemPub: bytes)

  /** WrapFileKey of both packages; `nonce` is drawn at random. */
  function WrapFileKey(s: Suite, fileKey: bytes, recipientPub: bytes, ephemPriv: bytes, nonce: bytes): Option<Wrapped> {
    match s.dh.shared(ephemPriv, recipientPub)
    case None => None
    case Some(shared) =>
      var ephemPub := s.dh.pub(ephemPriv);
      var kek := AgreedKey(s.hash, shared, ephemPub, recipientPub);
      Some(Wrapped(nonce + s.aead.seal(kek, nonce, fileKey), ephemPub))
  }

  /** crypto.UnwrapFileKey: checks the length of what it opened. */
  function CryptoUnwrap(s: Suite, wrapped: bytes, ephemPub: bytes, priv: bytes): Option<bytes> {
    if |wrapped| < NONCE_SIZE then None
    else
      match s.dh.shared(priv, ephemPub)
      case None => None
      case Some(shared) =>
        var kek := AgreedKey(s.hash, shared, ephemPub, s.dh.pub(priv));
        match s.aead.open(kek, wrapped[..NONCE_SIZE], wrapped[NONCE_SIZE..])
        case None => None
        case Some(plain) => if |plain| != KEY_SIZE then None else Some(plain)
  }

  /** copy into a zeroed [32]byte. */
  function Fit32(p: bytes): (k: bytes)
    ensures |k| == KEY_SIZE
  {
    if |p| >= KEY_SIZE then p[..KEY_SIZE] else p + Zeros(KEY_SIZE - |p|)
  }

  /** app.UnwrapFileKey: checks the length of what it is given. */
  function AppUnwrap(s: Suite, wrapped: bytes, ephemPub: bytes, priv: bytes): Option<bytes> {
    if |wrapped| != NONCE_SIZE + KEY_SIZE + OVERHEAD then None
    else
      match s.dh.shared(priv, ephemPub)
      case None => None
      case Some(shared) =>
        var kek := AgreedKey(s.hash, shared, ephemPub, s.dh.pub(priv));
        match s.aead.open(kek, wrapped[..NONCE_SIZE], wrapped[NONCE_SIZE..])
        case None => None
        case Some(plain) => Some(Fit32(plain))
  }

  /** The two unwrappers agree on every input, well formed or not. */
  lemma UnwrappersAgree(s: Suite, wrapped: bytes, ephemPub: bytes, priv: bytes)
    requires s.aead.Correct()
    ensures CryptoUnwrap(s, wrapped, ephemPub, priv) == AppUnwrap(s, wrapped, ephemPub, priv)
  {
    if |wrapped| >= NONCE_SIZE && s.dh.shared(priv, ephemPub).Some? {
      var kek := AgreedKey(s.hash, s.dh.shared(priv, ephemPub).value, ephemPub, s.dh.pub(priv));
      var c := wrapped[NONCE_SIZE..];
      if s.aead.open(kek, wrapped[..NONCE_SIZE], c).Some? {
        var plain := s.aead.open(kek, wrapped[..NONCE_SIZE], c).value;
        assert |c| == |plain| + OVERHEAD;
        if |plain| == KEY_SIZE {
          assert Fit32(plain) == plain;
        }
      }
    }
  }

  /** Whoever holds the private key gets the file key back. */
  lemma UnwrapUndoesWrap(s: Suite, fileKey: bytes, priv: bytes, ephemPriv: bytes, nonce: bytes)
    requires s.aead.Correct() && s.dh.Commutes() && |fileKey| == KEY_SIZE && |nonce| == NONCE_SIZE
    ensures var w := WrapFileKey(s, fileKey, s.dh.pub(priv), ephemPriv, nonce);
      w.Some? ==> |w.value.ephemPub| == 32
                  && CryptoUnwrap(s, w.value.data, w.value.ephemPub, priv) == Some(fileKey)
                  && AppUnwrap(s, w.value.data, w.value.ephemPub, priv) == Some(fileKey)
  {
    var w := WrapFileKey(s, fileKey, s.dh.pub(priv), ephemPriv, nonce);
    if w.Some? {
      var data := w.value.data;
      var kek := AgreedKey(s.hash, s.dh.shared(priv, w.value.ephemPub).value, w.value.ephemPub, s.dh.pub(priv));
      assert data[..NONCE_SIZE] == nonce && data[NONCE_SIZE..] == s.aead.seal(kek, nonce, fileKey);
      UnwrappersAgree(s, data, w.value.ephemPub, priv);
    }
  }

  // ---------- hexadecimal ----------

  predicate IsHex(c: char) { '0' <= c <= '9' || 'a' <= c <= 'f' || 'A' <= c <= 'F' }

  function HexValue(c: char): (v: nat)
    requires IsHex(c)
    ensures v < 16
  {
    if c <= '9' then c as nat - '0' as nat else if c <= 'F' then c as nat - 'A' as nat + 10 else c as nat - 'a' as nat + 10
  }

  /** hex.DecodeString. */
  function HexDecode(s: string): Option<bytes> {
    if s == "" then Some([])
    else if |s| < 2 || !IsHex(s[0]) || !IsHex(s[1]) then None
    else
      match HexDecode(s[2..])
      case None => None
      case Some(rest) => Some([(16 * HexValue(s[0]) + HexValue(s[1])) as byte] + rest)
  }

  predicate IsPubHex(s: string) { |s| == 64 && forall i :: 0 <= i < |s| ==> IsHex(s[i]) }

  lemma {:induction false} HexLength(s: string)
    requires forall i :: 0 <= i < |s| ==> IsHex(s[i])
    ensures |s| % 2 == 0 <==> HexDecode(s).Some?
    ensures HexDecode(s).Some? ==> 2 * |HexDecode(s).value| == |s|
  {
    if |s| >= 2 {
      HexLength(s[2..]);
    }
  }

  function HexDigit(v: nat): (c: char)
    requires v < 16
    ensures IsHex(c) && HexValue(c) == v
  {
    if v < 10 then '0' + v as char else 'a' + (v - 10) as char
  }

  /** hex.EncodeToString. */
  function HexEncode(b: bytes): string {
    if b == [] then "" else [HexDigit(b[0] as nat / 16), HexDigit(b[0] as nat % 16)] + HexEncode(b[1..])
  }

  lemma TwoDigits(v: nat)
    requires v < 256
    ensures v / 16 < 16 && v % 16 < 16 && 16 * (v / 16) + v % 16 == v
  {}

  /** A pair of digits in front of `rest` reads as one byte. */
  lemma DecodePair(c: char, d: char, rest: string, tail: bytes)
    requires IsHex(c) && IsHex(d) && HexDecode(rest) == Some(tail)
    ensures HexDecode([c, d] + rest) == Some([(16 * HexValue(c) + HexValue(d)) as byte] + tail)
  {
    assert ([c, d] + rest)[2..] == rest;
  }

  /** Keys written in hexadecimal read back as they were. */
  lemma {:induction false} HexRoundTrip(b: bytes)
    ensures HexDecode(HexEncode(b)) == Some(b)
  {
    if b != [] {
      var v := b[0] as nat;
      TwoDigits(v);
      HexRoundTrip(b[1..]);
      hide HexDecode, HexDigit, HexValue;
      DecodePair(HexDigit(v / 16), HexDigit(v % 16), HexEncode(b[1..]), b[1..]);
      assert [b[0]] + b[1..] == b;
    }
  }

  // ---------- the access block ----------

  /** Byte fields are base64 in the manifest. */
  datatype AccessRef = AccessRef(wrappedKey: bytes, ephemPub: bytes, salt: bytes, kdf: string)

  /** What a lock draws at random. */
  datatype Draw = Draw(salt: bytes, nonce: bytes, ephemPriv: bytes)

  function CommitKey(s: Suite, to: string): bytes { s.hash(s.utf8("ghostdrop:commit:" + to)) }

  function OpenKey(s: Suite, dropId: string): bytes { s.hash(s.utf8("ghostdrop:open:" + dropId)) }

  /** The first mode that applies, in the source's order. */
  function Lock(s: Suite, dropId: string, fileKey: bytes, password: string, to: string, r: Draw): Option<AccessRef> {
    if password != "" then
      Some(AccessRef(r.nonce + s.aead.seal(s.kdf(password, r.salt), r.nonce, fileKey), [], r.salt, "argon2id"))
    else if IsPubHex(to) then
      HexLength(to);
      match WrapFileKey(s, fileKey, HexDecode(to).value, r.ephemPriv, r.nonce)
      case None => None
      case Some(w) => Some(AccessRef(w.data, w.ephemPub, [], "x25519"))
    else if to != "" then
      Some(AccessRef(r.nonce + s.aead.seal(CommitKey(s, to), r.nonce, fileKey), [], [], "commitment"))
    else
      Some(AccessRef(r.nonce + s.aead.seal(OpenKey(s, dropId), r.nonce, fileKey), [], [], "none"))
  }

  function OpenBlock(s: Suite, raw: bytes, kek: bytes): Option<bytes>
    requires |raw| >= NONCE_SIZE
  {
    match s.aead.open(kek, raw[..NONCE_SIZE], raw[NONCE_SIZE..])
    case None => None
    case Some(plain) => Some(Fit32(plain))
  }

  function Unlock(s: Suite, dropId: string, commitment: string, a: AccessRef, secret: string): Option<bytes> {
    if |a.wrappedKey| < NONCE_SIZE then None
    else if a.kdf == "argon2id" then
      if secret == "" then None else OpenBlock(s, a.wrappedKey, s.kdf(secret, a.salt))
    else if a.kdf == "x25519" then
      match HexDecode(TrimSpace(secret))
      case None => None
      case Some(priv) =>
        if |priv| != 32 || |a.ephemPub| != 32 then None else AppUnwrap(s, a.wrappedKey, a.ephemPub, priv)
    else if a.kdf == "commitment" then OpenBlock(s, a.wrappedKey, CommitKey(s, commitment))
    else OpenBlock(s, a.wrappedKey, OpenKey(s, dropId))
  }

  /** The record lockAccess writes to. */
  class Manifest {
    const dropId: string
    const recipientCommitment: string
    var access: AccessRef

    constructor (dropId: string, recipientCommitment: string, access: AccessRef)
      ensures this.dropId == dropId && this.recipientCommitment == recipientCommitment && this.access == access
    {
      this.dropId, this.recipientCommitment, this.access := dropId, recipientCommitment, access;
    }
  }

  method LockAccess(s: Suite, m: Manifest, fileKey: bytes, password: string, to: string, r: Draw) returns (ok: bool)
    modifies m
    ensures var locked := Lock(s, m.dropId, fileKey, password, to, r);
      ok == locked.Some? && m.access == if ok then locked.value else old(m.access)
  {
    if password != "" {
      var kek := s.kdf(password, r.salt);
      m.access := AccessRef(r.nonce + s.aead.seal(kek, r.nonce, fileKey), [], r.salt, "argon2id");
    } else if IsPubHex(to) {
      HexLength(to);
      var w := WrapFileKey(s, fileKey, HexDecode(to).value, r.ephemPriv, r.nonce);
      if w.None? {
        return false;
      }
      m.access := AccessRef(w.value.data, w.value.ephemPub, [], "x25519");
    } else if to != "" {
      m.access := AccessRef(r.nonce + s.aead.seal(CommitKey(s, to), r.nonce, fileKey), [], [], "commitment");
    } else {
      m.access := AccessRef(r.nonce + s.aead.seal(OpenKey(s, m.dropId), r.nonce, fileKey), [], [], "none");
    }
    return true;
  }

  /** The secret that belongs to a lock: the password; else, for a recipient given by public key, the
      hexadecimal private key, blanks around it allowed; else, for a named recipient, nothing but the
      same name in the manifest; else nothing. */
  predicate Matches(s: Suite, password: string, to: string, commitment: string, secret: string) {
    if password != "" then secret == password
    else if IsPubHex(to) then
      var priv := HexDecode(TrimSpace(secret));
      priv.Some? && |priv.value| == 32 && HexDecode(to) == Some(s.dh.pub(priv.value))
    else if to != "" then commitment == to
    else true
  }

  /** In all four modes, through the priority of the modes, the matching secret recovers the file key
      that was locked. Locking only fails where X25519 refuses the recipient's public key. */
  lemma UnlockUndoesLock(s: Suite, dropId: string, fileKey: bytes, password: string, to: string, commitment: string, secret: string, r: Draw)
    requires s.aead.Correct() && s.dh.Commutes()
    requires |fileKey| == KEY_SIZE && |r.nonce| == NONCE_SIZE
    requires Matches(s, password, to, commitment, secret)
    ensures var locked := Lock(s, dropId, fileKey, password, to, r);
      && (locked.Some? ==> Unlock(s, dropId, commitment, locked.value, secret) == Some(fileKey))
      && (locked.None? ==> password == "" && IsPubHex(to) && s.dh.shared(r.ephemPriv, HexDecode(to).value).None?)
  {
    if password == "" && IsPubHex(to) {
      UnwrapUndoesWrap(s, fileKey, HexDecode(TrimSpace(secret)).value, r.ephemPriv, r.nonce);
    } else {
      var kek := if password != "" then s.kdf(password, r.salt) else if to != "" then CommitKey(s, to) else OpenKey(s, dropId);
      OpenUndoesSeal(s, kek, r.nonce, fileKey);
    }
  }

  lemma OpenUndoesSeal(s: Suite, kek: bytes, nonce: bytes, fileKey: bytes)
    requires s.aead.Correct() && |fileKey| == KEY_SIZE && |nonce| == NONCE_SIZE
    ensures var raw := nonce + s.aead.seal(kek, nonce, fileKey);
      |raw| >= NONCE_SIZE + KEY_SIZE && OpenBlock(s, raw, kek) == Some(fileKey)
  {
    var raw := nonce + s.aead.seal(kek, nonce, fileKey);
    assert raw[..NONCE_SIZE] == nonce && raw[NONCE_SIZE..] == s.aead.seal(kek, nonce, fileKey);
    assert Fit32(fileKey) == fileKey;
  }
}
