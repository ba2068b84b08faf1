/** What the vault promises across calls: sealing then opening round-trips, opening
    accepts exactly the sealed outputs of the same vault and context, and the sealed
    outputs of different nonces never coincide. */
module VaultProperties {
  import opened Basics
  import opened Gcm
  import opened Cipher

  /** Round trip: opening what was sealed, under the same context, gives the plaintext. */
  lemma RoundTrip(v: Vault, nonce: Nonce, plaintext: Bytes, context: Bytes)
    requires v.Valid() && |plaintext| <= MaxPlaintextSize
    ensures v.Decrypt(v.Sealed(nonce, plaintext, context), context) == Success(plaintext)
  {
  }

  /** `Decrypt` succeeds with `plaintext` exactly on the outputs `Encrypt` can produce for
      that plaintext and context, whatever nonce was drawn. So no tampered input and no
      input for another context is accepted unless it is itself such an output. */
  lemma DecryptAcceptsExactlySealed(v: Vault, ciphertext: Bytes, context: Bytes, plaintext: Bytes)
    requires v.Valid()
    ensures v.Decrypt(ciphertext, context) == Success(plaintext)
        <==> |plaintext| <= MaxPlaintextSize && exists nonce: Nonce :: ciphertext == v.Sealed(nonce, plaintext, context)
  {
    if v.Decrypt(ciphertext, context) == Success(plaintext) {
      var nonce: Nonce := ciphertext[..StandardNonceSize];
      var body := ciphertext[StandardNonceSize..];
      assert v.gcm.primitives.open(v.gcm.key, nonce, body, context) == Success(plaintext);
      assert ciphertext == nonce + body;
      assert ciphertext == v.Sealed(nonce, plaintext, context);
    }
    if |plaintext| <= MaxPlaintextSize && exists nonce: Nonce :: ciphertext == v.Sealed(nonce, plaintext, context) {
      var nonce: Nonce :| ciphertext == v.Sealed(nonce, plaintext, context);
      RoundTrip(v, nonce, plaintext, context);
    }
  }

  /** An output sealed under one context opens under another only if it is also the
      sealing, with the same nonce, of what it opens to under that other context: a GCM
      tag collision. */
  lemma OtherContextNeedsCollision(v: Vault, nonce: Nonce, plaintext: Bytes, sealedContext: Bytes,
                                   context: Bytes, recovered: Bytes)
    requires v.Valid() && |plaintext| <= MaxPlaintextSize
    requires v.Decrypt(v.Sealed(nonce, plaintext, sealedContext), context) == Success(recovered)
    ensures v.Sealed(nonce, recovered, context) == v.Sealed(nonce, plaintext, sealedContext)
  {
  }

  /** Changing any byte of the tag of a sealed output always makes it fail to open under
      its context: the nonce and the ciphertext part are unchanged, so the only tag
      they authenticate is the original one. */
  lemma TagTamperRejected(v: Vault, nonce: Nonce, plaintext: Bytes, context: Bytes, i: nat, b: byte)
    requires v.Valid() && |plaintext| <= MaxPlaintextSize
    requires |v.Sealed(nonce, plaintext, context)| - TagSize <= i < |v.Sealed(nonce, plaintext, context)|
    requires v.Sealed(nonce, plaintext, context)[i] != b
    ensures v.Decrypt(v.Sealed(nonce, plaintext, context)[i := b], context).Failure?
  {
  }

  /** Outputs sealed under different nonces differ, whatever the plaintexts and contexts:
      the freshness of the drawn nonce alone makes two encryptions distinct. */
  lemma DistinctNoncesDistinctOutputs(v: Vault, nonce1: Nonce, nonce2: Nonce,
                                      plaintext1: Bytes, plaintext2: Bytes, context1: Bytes, context2: Bytes)
    requires nonce1 != nonce2
    requires |plaintext1| <= MaxPlaintextSize && |plaintext2| <= MaxPlaintextSize
    ensures v.Sealed(nonce1, plaintext1, context1) != v.Sealed(nonce2, plaintext2, context2)
  {
  }

  /** A sealed output is never the plaintext itself: it is 28 bytes longer. */
  lemma SealedIsNotPlaintext(v: Vault, nonce: Nonce, plaintext: Bytes, context: Bytes)
    requires v.Valid() && |plaintext| <= MaxPlaintextSize
    ensures |v.Sealed(nonce, plaintext, context)| == |plaintext| + 28
    ensures v.Sealed(nonce, plaintext, context) != plaintext
  {
  }

  /** ASCII text as the bytes Go's `[]byte(text)` gives for it. */
  function Ascii(text: string): (b: Bytes)
    requires forall i | 0 <= i < |text| :: text[i] as int < 0x80
    ensures |b| == |text|
  {
    seq(|text|, i requires 0 <= i < |text| => text[i] as int as byte)
  }

  /** The round-trip scenario of the package's tests: a 32-byte message sealed under a
      context gives 28 + 32 = 60 bytes, differs from the message, and opens to it under
      the same context. */
  lemma MessageScenario(v: Vault, nonce: Nonce)
    requires v.Valid()
    ensures var message := Ascii("Hello, this is a secret message!");
            var context := Ascii("user-context-123");
            var sealed := v.Sealed(nonce, message, context);
            |sealed| == 60 && sealed != message && v.Decrypt(sealed, context) == Success(message)
  {
  }
}
