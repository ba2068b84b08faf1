/** The vault of package agron: a GCM instance built from a 32-byte master key, sealing
    byte payloads to the wire format `nonce || ciphertext || tag` bound to a caller
    context (GCM's associated data), and opening them with a single opaque error. */
module Cipher {
  import opened Basics
  import opened Gcm

  /** What the random source yields when it fills the nonce buffer: a full nonce. */
  type Nonce = s: Bytes | |s| == StandardNonceSize witness seq(StandardNonceSize, _ => 0 as byte)

  /** `Vault`: holds one GCM instance, never updated after construction. */
  class Vault {
    const gcm: Aead

    constructor (gcm: Aead)
      ensures this.gcm == gcm
    {
      this.gcm := gcm;
    }

    /** The instance is keyed with 32 bytes and the cipher behaves as AES-256-GCM. */
    ghost predicate Valid() {
      gcm.Valid()
    }

    /** The sealed output for one nonce: what `Encrypt` returns once that nonce is drawn.
        It begins with the nonce and, for a valid vault, is one nonce and one tag longer
        than the plaintext. */
    function Sealed(nonce: Nonce, plaintext: Bytes, context: Bytes): (s: Bytes)
      requires |plaintext| <= MaxPlaintextSize
      ensures StandardNonceSize <= |s| && s[..StandardNonceSize] == nonce
      ensures Valid() ==> |s| == StandardNonceSize + |plaintext| + TagSize
    {
      gcm.Seal(nonce, nonce, plaintext, context)
    }

    /** `Encrypt(plaintext, context)`. The draw from the random source is the parameter
        `entropy`: either the bytes that filled the nonce buffer or the reader's error.
        Once a nonce is drawn, a plaintext over GCM's limit makes `Seal` panic, hence the
        precondition; a failed draw returns before `Seal` whatever the plaintext. */
    method Encrypt(plaintext: Bytes, context: Bytes, entropy: Result<Nonce>) returns (r: Result<Bytes>)
      requires entropy.Success? ==> |plaintext| <= MaxPlaintextSize
      ensures r.Failure? <==> entropy.Failure?
      ensures entropy.Failure? ==> r.error == entropy.error
      ensures entropy.Success? ==> StandardNonceSize <= |r.value| && r.value[..StandardNonceSize] == entropy.value
      ensures entropy.Success? ==> r.value == Sealed(entropy.value, plaintext, context)
      ensures Valid() && r.Success? ==> |r.value| == StandardNonceSize + |plaintext| + TagSize
    {
      var nonce := new byte[gcm.NonceSize()];
      match entropy {
        case Failure(err) =>
          return Failure(err);
        case Success(drawn) =>
          forall i | 0 <= i < nonce.Length {
            nonce[i] := drawn[i];
          }
          assert nonce[..] == drawn;
          return Success(gcm.Seal(nonce[..], nonce[..], plaintext, context));
      }
    }

    /** `Decrypt(ciphertext, context)`: input shorter than a nonce is rejected before it is
        split; otherwise the first `NonceSize` bytes are the nonce and the rest is handed,
        with the caller's context, to GCM's `Open`. Every failure is `ErrDecryption`. */
    function Decrypt(ciphertext: Bytes, context: Bytes): (r: Result<Bytes>)
      ensures r.Failure? ==> r.error == ErrDecryption
      ensures |ciphertext| < StandardNonceSize ==> r.Failure?
      ensures |ciphertext| >= StandardNonceSize ==>
        (var outcome := gcm.primitives.open(gcm.key, ciphertext[..StandardNonceSize], ciphertext[StandardNonceSize..], context);
         (r.Success? <==> outcome.Success?) && (r.Success? ==> r.value == outcome.value))
      ensures Valid() && r.Success? ==> |ciphertext| == StandardNonceSize + |r.value| + TagSize
      ensures Valid() && |ciphertext| > StandardNonceSize + MaxPlaintextSize + TagSize ==> r.Failure?
    {
      var nonceSize := gcm.NonceSize();
      if |ciphertext| < nonceSize then
        Failure(ErrDecryption)
      else
        var nonce, encryptedData := ciphertext[..nonceSize], ciphertext[nonceSize..];
        match gcm.Open([], nonce, encryptedData, context)
        case Failure(_) => Failure(ErrDecryption)
        case Success(plaintext) => Success(plaintext)
    }
  }

  /** `NewVault(masterKey)`. The AES/GCM code it calls is the parameter `primitives`. */
  method NewVault(masterKey: Bytes, primitives: Primitives) returns (r: Result<Vault>)
    ensures r == Failure(ErrInvalidKeySize) <==> |masterKey| != KeySize
    ensures |masterKey| == KeySize && primitives.newCipher(masterKey).Some? ==>
      r == Failure(Foreign(primitives.newCipher(masterKey).value))
    ensures |masterKey| == KeySize && primitives.newCipher(masterKey).None? && primitives.newGCM(masterKey).Some? ==>
      r == Failure(Foreign(primitives.newGCM(masterKey).value))
    ensures r.Success? ==> r.value.gcm == Aead(primitives, masterKey)
    ensures |masterKey| == KeySize && primitives.newCipher(masterKey).None? && primitives.newGCM(masterKey).None? ==>
      r.Success?
    ensures primitives.Valid() ==> (r.Success? <==> |masterKey| == KeySize)
    ensures primitives.Valid() && r.Success? ==> r.value.Valid()
  {
    if |masterKey| != KeySize {
      return Failure(ErrInvalidKeySize);
    }
    match primitives.newCipher(masterKey) {
      case Some(message) => return Failure(Foreign(message));
      case None =>
    }
    match primitives.newGCM(masterKey) {
      case Some(message) => return Failure(Foreign(message));
      case None =>
    }
    var v := new Vault(Aead(primitives, masterKey));
    return Success(v);
  }
}
