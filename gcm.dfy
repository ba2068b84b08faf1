/** AES-256 in Galois/Counter Mode (NIST SP 800-38D over the AES block cipher of
    FIPS 197), as Go's crypto/aes and crypto/cipher provide it. That code is not part
    of this model: the cipher is a value of four functions, and the facts the vault
    relies on are a predicate over them rather than axioms. */
module Gcm {
  import opened Basics

  /** Key length of AES-256, in bytes. */
  const KeySize: nat := 32
  /** The standard 96-bit GCM nonce (section 5.2.1.1 of NIST SP 800-38D). */
  const StandardNonceSize: nat := 12
  /** The 128-bit authentication tag appended by sealing. */
  const TagSize: nat := 16
  /** The longest plaintext GCM may seal under one key and nonce: 2^39 - 256 bits
      (section 5.2.1.1 of NIST SP 800-38D), i.e. 2^32 - 2 blocks of 16 bytes. Go's
      `Seal` panics beyond it and its `Open` rejects ciphertexts longer than this plus a tag. */
  const MaxPlaintextSize: nat := (0x1_0000_0000 - 2) * 16

  /** The foreign cipher code, keyed explicitly:
      `newCipher(k)` / `newGCM(k)` are the messages of the errors (if any) of
      `aes.NewCipher(k)` and of `cipher.NewGCM` on the resulting block; `seal(k, n, p, a)` is the ciphertext and tag
      GCM produces; `open(k, n, c, a)` is GCM's authenticated decryption. */
  datatype Primitives = Primitives(
    newCipher: Bytes -> Option<string>,
    newGCM: Bytes -> Option<string>,
    seal: (Bytes, Bytes, Bytes, Bytes) -> Bytes,
    open: (Bytes, Bytes, Bytes, Bytes) -> Result<Bytes>)
  {
    /** What the vault assumes of AES-256-GCM with a 12-byte nonce:
        a 32-byte key initialises; sealing adds exactly one tag; opening a sealing of a
        plaintext within GCM's size limit, under the same nonce and associated data,
        gives the plaintext back; a ciphertext longer than the limit plus a tag is
        rejected; an accepted
        ciphertext is the sealing of what it opens to (CTR decryption inverts CTR
        encryption, and the tag is a deterministic function of the ciphertext and the
        associated data, so re-sealing the output reproduces the input); and, for that
        same reason, two sealings under one key, nonce and associated data whose
        ciphertext parts agree carry the same tag. */
    ghost predicate Valid() {
      && (forall key: Bytes | |key| == KeySize :: newCipher(key) == None && newGCM(key) == None)
      && (forall key: Bytes, nonce: Bytes, pt: Bytes, aad: Bytes
            | |key| == KeySize && |nonce| == StandardNonceSize ::
            && |seal(key, nonce, pt, aad)| == |pt| + TagSize
            && (|pt| <= MaxPlaintextSize ==> open(key, nonce, seal(key, nonce, pt, aad), aad) == Success(pt)))
      && (forall key: Bytes, nonce: Bytes, ct: Bytes, aad: Bytes
            | |key| == KeySize && |nonce| == StandardNonceSize && |ct| > MaxPlaintextSize + TagSize ::
            open(key, nonce, ct, aad).Failure?)
      && (forall key: Bytes, nonce: Bytes, ct: Bytes, aad: Bytes
            | |key| == KeySize && |nonce| == StandardNonceSize && open(key, nonce, ct, aad).Success? ::
            seal(key, nonce, open(key, nonce, ct, aad).value, aad) == ct)
      && (forall key: Bytes, nonce: Bytes, p1: Bytes, p2: Bytes, aad: Bytes
            | |key| == KeySize && |nonce| == StandardNonceSize && |p1| == |p2|
              && seal(key, nonce, p1, aad)[..|p1|] == seal(key, nonce, p2, aad)[..|p2|] ::
            seal(key, nonce, p1, aad) == seal(key, nonce, p2, aad))
    }
  }

  /** A GCM instance bound to one key: the `cipher.AEAD` that `cipher.NewGCM` returns. */
  datatype Aead = Aead(primitives: Primitives, key: Bytes) {

    ghost predicate Valid() {
      primitives.Valid() && |key| == KeySize
    }

    function NonceSize(): nat { StandardNonceSize }

    function Overhead(): nat { TagSize }

    /** `Seal(dst, nonce, plaintext, additionalData)`: appends the ciphertext and tag to `dst`.
        A nonce of the wrong length or a plaintext over GCM's limit makes Go panic,
        hence the preconditions. */
    function Seal(dst: Bytes, nonce: Bytes, plaintext: Bytes, additionalData: Bytes): (out: Bytes)
      requires |nonce| == NonceSize()
      requires |plaintext| <= MaxPlaintextSize
      ensures |dst| <= |out| && out[..|dst|] == dst
      ensures Valid() ==> |out| == |dst| + |plaintext| + Overhead()
    {
      dst + primitives.seal(key, nonce, plaintext, additionalData)
    }

    /** `Open(dst, nonce, ciphertext, additionalData)`: authenticates and decrypts, appending
        the plaintext to `dst`; on failure it yields GCM's error and no plaintext. */
    function Open(dst: Bytes, nonce: Bytes, ciphertext: Bytes, additionalData: Bytes): (r: Result<Bytes>)
      requires |nonce| == NonceSize()
      ensures r.Success? ==> |dst| <= |r.value| && r.value[..|dst|] == dst
      ensures Valid() && r.Success? ==> |r.value| + Overhead() == |dst| + |ciphertext|
      ensures Valid() && |ciphertext| > MaxPlaintextSize + Overhead() ==> r.Failure?
      ensures Valid() && r.Success? ==> Seal([], nonce, r.value[|dst|..], additionalData) == ciphertext
    {
      match primitives.open(key, nonce, ciphertext, additionalData)
      case Success(plaintext) => Success(dst + plaintext)
      case Failure(err) => Failure(err)
    }
  }

  /** A stand-in tag of all zero bytes, used only by the witness below. */
  function ZeroTag(): (t: Bytes)
    ensures |t| == TagSize
  {
    seq(TagSize, _ => 0 as byte)
  }

  function ToyInit(key: Bytes): Option<string> { None }

  function ToySeal(key: Bytes, nonce: Bytes, pt: Bytes, aad: Bytes): Bytes { pt + ZeroTag() }

  function ToyOpen(key: Bytes, nonce: Bytes, ct: Bytes, aad: Bytes): Result<Bytes> {
    if TagSize <= |ct| <= MaxPlaintextSize + TagSize && ct[|ct| - TagSize..] == ZeroTag() then Success(ct[..|ct| - TagSize])
    else Failure(Foreign("cipher: message authentication failed"))
  }

  /** The assumptions of `Primitives.Valid` are consistent: a trivial (and insecure)
      cipher that appends a zero tag meets all of them, so a vault built on them is
      not vacuously verified. */
  lemma ValidIsSatisfiable()
    ensures exists p: Primitives :: p.Valid()
  {
    var p := Primitives(ToyInit, ToyInit, ToySeal, ToyOpen);
    forall key: Bytes, nonce: Bytes, pt: Bytes, aad: Bytes | |pt| <= MaxPlaintextSize
      ensures p.open(key, nonce, p.seal(key, nonce, pt, aad), aad) == Success(pt)
    {
      var ct := pt + ZeroTag();
      assert ct[|ct| - TagSize..] == ZeroTag() && ct[..|ct| - TagSize] == pt;
    }
    forall key: Bytes, nonce: Bytes, ct: Bytes, aad: Bytes | p.open(key, nonce, ct, aad).Success?
      ensures p.seal(key, nonce, p.open(key, nonce, ct, aad).value, aad) == ct
    {
      assert ct == ct[..|ct| - TagSize] + ct[|ct| - TagSize..];
    }
    forall key: Bytes, nonce: Bytes, p1: Bytes, p2: Bytes, aad: Bytes
      | |p1| == |p2| && |p1| <= |p.seal(key, nonce, p1, aad)| && |p2| <= |p.seal(key, nonce, p2, aad)|
        && p.seal(key, nonce, p1, aad)[..|p1|] == p.seal(key, nonce, p2, aad)[..|p2|]
      ensures p.seal(key, nonce, p1, aad) == p.seal(key, nonce, p2, aad)
    {
      assert (p1 + ZeroTag())[..|p1|] == p1 && (p2 + ZeroTag())[..|p2|] == p2;
    }
    assert p.Valid();
  }
}
