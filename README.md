# agron vault — a Dafny model

Package `agron` seals opaque byte payloads with AES-256-GCM, bound to an
application-supplied context that GCM treats as associated data. This model covers the
vault in `cipher.go`:

- `NewVault` accepts exactly 32-byte master keys.
- `Encrypt` draws a 12-byte nonce and returns `nonce || ciphertext || tag`.
- `Decrypt` rejects input shorter than a nonce. Otherwise it splits the input at 12 and
  opens the rest under the caller's context. Every failure becomes the one error
  `ErrDecryption`.

Files:

- `basics.dfy` (module `Basics`): bytes, `Option`/`Result`, and the package's errors.
  `ErrInvalidKeySize` and `ErrDecryption` are the package's sentinels. `Foreign(message)`
  stands for any error from Go's crypto code, passed through unchanged.
- `gcm.dfy` (module `Gcm`): AES-256 in Galois/Counter Mode, following NIST SP 800-38D
  over the AES of FIPS 197, as Go's `crypto/aes` and `crypto/cipher` provide it. The
  cipher code is not part of this model. It appears as the `Primitives` datatype, a
  value of four functions: key setup for `aes.NewCipher` and for `cipher.NewGCM`,
  `seal`, and `open`. The facts the vault relies on are the ghost predicate
  `Primitives.Valid()`, used as a hypothesis:
  - a 32-byte key initialises;
  - sealing adds exactly one 16-byte tag;
  - opening a sealing of a plaintext within GCM's size limit, under the same nonce and
    context, returns the plaintext;
  - a ciphertext longer than that limit plus a tag is rejected;
  - a ciphertext that opens is the sealing of what it opens to. This holds because CTR
    decryption inverts CTR encryption, and the tag is a deterministic function of the
    ciphertext and context;
  - for the same reason, two sealings under one key, nonce and context whose ciphertext
    parts agree carry the same tag.

  `ValidIsSatisfiable` shows that these facts are consistent with each other. `Aead` is
  one keyed GCM instance (Go's `cipher.AEAD`). Its `Seal` and `Open` append to a `dst`
  slice, as Go's do; that is why `Encrypt`'s output begins with the nonce. Constants:
  `KeySize = 32`, `StandardNonceSize = 12` (the 96-bit IV of section 5.2.1.1 of NIST
  SP 800-38D), `TagSize = 16`, and `MaxPlaintextSize = (2^32 - 2) * 16` bytes, the
  plaintext limit of that same section. Go's `Seal` panics on a longer plaintext, so the
  limit is a precondition of `Seal` and `Sealed`, and of `Encrypt` once a nonce has been
  drawn. Go's `Open` returns an
  error for a ciphertext longer than the limit plus a tag, and `Primitives.Valid()`
  states that rejection.
- `cipher.dfy` (module `Cipher`): the `Vault` class and `NewVault`. Its one field, the
  GCM instance, is a `const` because it never changes after construction. `Encrypt` is a
  method. It allocates the nonce buffer, fills it with what the random source delivered,
  and appends GCM's output to it. `Decrypt` is a function. `Sealed(nonce, p, c)` is what
  `Encrypt` returns once `nonce` has been drawn.
- `properties.dfy` (module `VaultProperties`): lemmas that relate several calls.

Two things are inputs rather than effects. The random source is the parameter
`entropy` of `Encrypt`: either a full nonce or the reader's error. The AES/GCM code is
the parameter `primitives` of `NewVault`.

The package's round-trip test seals the 32-byte message
`"Hello, this is a secret message!"` (vault_test.go:53), so its output is
12 + 32 + 16 = 60 bytes; `MessageScenario` proves that figure.

## Model

| member | source | states |
|---|---|---|
| `Basics.Error.Message` | cipher.go:12-15 | The package's two sentinel errors carry messages that begin with `agron: `. A passed-through error keeps its own message. |
| `Gcm.Aead.Seal` | cipher.go:46 | Sealing requires a 12-byte nonce and a plaintext within GCM's limit, since Go panics otherwise. It appends to `dst` and leaves `dst` as the prefix. For a valid 32-byte instance the output is `dst` plus the plaintext length plus 16 bytes. |
| `Gcm.Aead.Open` | cipher.go:57 | A successful open keeps `dst` as prefix. For a valid instance: the recovered plaintext is 16 bytes shorter than the ciphertext, sealing it again under the same nonce and context reproduces the ciphertext, and a ciphertext longer than GCM's limit plus a tag is rejected. |
| `Cipher.Vault.constructor` | cipher.go:17-19 | The vault wraps exactly the GCM instance it was built with. |
| `Cipher.NewVault` | cipher.go:22-38 | The result is `ErrInvalidKeySize` exactly when the key is not 32 bytes long. An `aes.NewCipher` or `cipher.NewGCM` failure on a 32-byte key is returned as that error, checked in that order. When both succeed on a 32-byte key, the result is a vault. On success the vault holds a GCM instance with exactly this key. With a well-behaved cipher, construction succeeds exactly for 32-byte keys and the vault is valid. |
| `Cipher.Vault.Sealed` | cipher.go:42-46 | The sealed output for a drawn nonce begins with that nonce. For a valid vault it is 12 + n + 16 bytes long for an n-byte plaintext, the empty one included. |
| `Cipher.Vault.Encrypt` | cipher.go:41-47 | `Encrypt` fails exactly when the random source fails, and then returns that error unchanged with no output, for a plaintext of any length. Once a nonce is drawn the plaintext must be within GCM's limit, since beyond it Go's `Seal` panics. Otherwise its output starts with the drawn nonce and is 12 + n + 16 bytes long. That output is the sealing of the plaintext under that nonce and the caller's context. |
| `Cipher.Vault.Decrypt` | cipher.go:50-62 | Every failure is `ErrDecryption` and carries no plaintext. Input shorter than 12 bytes always fails. Otherwise the result succeeds exactly when GCM opens bytes 12 onward under bytes 0-11 as nonce and the caller's context, and it is GCM's plaintext. With a valid vault, an accepted input is 12 + n + 16 bytes long for an n-byte plaintext, and input longer than 12 bytes plus GCM's limit plus a tag is rejected. |
| `VaultProperties.RoundTrip` | cipher.go:41-62 | Opening a sealed output under the context it was sealed with returns the original plaintext, for every nonce, context and plaintext within GCM's limit. |
| `VaultProperties.DecryptAcceptsExactlySealed` | cipher.go:50-62 | `Decrypt` returns plaintext p under context c if and only if p is within GCM's limit and its input is a sealing of p under c with some nonce. So a tampered or re-contextualised input is accepted only when it is itself a genuine output. |
| `VaultProperties.OtherContextNeedsCollision` | cipher.go:56-60 | An output sealed under one context opens under another only if that output is also the sealing, with the same nonce, of the recovered plaintext under the other context. That would be a GCM tag collision. |
| `VaultProperties.TagTamperRejected` | vault_test.go:115-125 | Changing any byte in the 16-byte tag of a sealed output, as the tamper test does with the last byte, always makes `Decrypt` under the same context fail, for a valid vault. |
| `VaultProperties.DistinctNoncesDistinctOutputs` | cipher.go:42-46 | Two sealed outputs with different nonces differ, whatever their plaintexts and contexts. |
| `VaultProperties.SealedIsNotPlaintext` | cipher.go:46 | A sealed output never equals its plaintext. It is exactly 28 bytes longer. |
| `VaultProperties.MessageScenario` | vault_test.go:46-73 | For the tests' 32-byte message and context, the sealed output is 60 bytes long, differs from the message, and opens to the message under the same context. |

## Left out

- `loaders.go` (`KeyLoader`, `EnvHexLoader`, `FileHexLoader`) is not part of this model. These types read an environment variable or a file, which is OS I/O. They then trim and hex-decode with Go library code. They do not check the key length; `NewVault` does.
- The AES block cipher and the GCM construction (counter mode, GHASH) are not modelled. They are foreign code, represented only by `Gcm.Primitives` and the facts in `Primitives.Valid()`.
- `crypto/rand` and `io.ReadFull` are not modelled. Their outcome, 12 bytes or an error, is the `entropy` parameter of `Encrypt`.
- Cryptographic security is not modelled: unforgeability, context binding and single-bit tamper detection in the probabilistic sense, and the unpredictability of nonces. A deterministic model cannot state "with overwhelming probability". The model proves the deterministic core of each property instead. A forged or re-contextualised input is accepted only when it is a genuine sealing (`DecryptAcceptsExactlySealed`, `OtherContextNeedsCollision`). Distinct nonces give distinct outputs (`DistinctNoncesDistinctOutputs`). A change to the tag alone is always rejected, because GCM's tag is determined by the nonce, the ciphertext part and the context (`TagTamperRejected`). A change to the nonce or the ciphertext part is rejected by GCM only with overwhelming probability, so the model does not claim it.
- `Gcm.Primitives.Valid` does not promise that opening under a different context always fails. With a fixed 16-byte tag and contexts of any length, some two contexts must produce the same tag, so that promise would contradict the round-trip fact.
- Concurrent use of one vault from several goroutines is not modelled; it is not a sequential property. The vault has no mutable state.
- Go's panics are preconditions, not modelled behaviour. A nonce of the wrong length is excluded by `Gcm.Aead.Seal` and `Gcm.Aead.Open`, and the vault always passes 12 bytes. A plaintext over GCM's limit is excluded by `Gcm.Aead.Seal` and `Cipher.Vault.Sealed`, and by `Cipher.Vault.Encrypt` when the draw succeeds.
- Errors are compared by value, not by pointer identity as in Go. A failure of `aes.NewCipher` or `cipher.NewGCM` is represented by its message, as `Foreign(message)`.
- Go distinguishes a nil slice from an empty one. For an empty plaintext, `Open(nil, …)` returns a nil slice; the model returns the empty sequence.
