# Verified model of the assh cryptographic core

This project models `crypto/crypto.cpp`, the cryptographic core of assh. Two peers run an unauthenticated finite-field Diffie-Hellman handshake. Each hashes the shared secret into a symmetric key, and commands are then protected with AES-256 in counter (CTR) mode.

The model is split into six modules:

- `Outcomes` (`outcomes.dfy`) models the library error codes on which the code exits.
  - `InvalidModulus` is libtommath's `MP_VAL`, which `mp_exptmod` reports for a modulus that is not positive.
  - `BufferTooSmall` is `MP_BUF`, which `mp_to_ubin` reports when a value does not fit the buffer.
  - Each `exit(1)` becomes an `Err` result.
- `ModArith` (`modarith.dfy`) covers `mp_exptmod`.
  - `ExptMod` is the reference definition, `b^e mod m`.
  - `ModExp` is a square-and-multiply loop proved equal to it.
  - The lemmas are the power laws that the key agreement rests on.
- `Bytes` (`bytes.dfy`) converts between the `unsigned char` buffers, modelled as `bv8`, and the naturals that hold digits.
- `Ubin` (`ubin.dfy`) covers the unsigned big-endian codec.
  - `mp_from_ubin` is `UbinValue` and `mp_ubin_size` is `UbinSize`.
  - `mp_to_ubin` is `ToUbin` and `ToBuffer`.
  - The core's wrappers are `mp_to_buffer` (`MpToBuffer`, which fills a 256-byte array) and `buffer_to_mp` (`BufferToMp`).
- `DiffieHellman` (`dh.dfy`) covers key generation, the shared secret and key derivation.
  - The generator is the constant `Generator = 2`, which is what `fetch_value_of_generator` sets.
  - The ffdhe2048 modulus of RFC 7919, Appendix A.1, is the constant `Ffdhe2048`.
  - The functions are `generate_public_key`, the exponentiation of `calculate_symmetric_key`, and the key derivation `sha256(minimal encoding of the secret)`.
  - The handshake as `assh.cpp` runs it is modelled too: encode, send, decode, derive.
- `Ctr` (`ctr.dfy`) covers `counter_increment` and `aes_ctr`.
  - `counter_increment` appears twice. `CounterIncrementAsWritten` is the loop exactly as written. `CounterIncrement` is the loop as intended, and the rest of the model uses it (see Findings).
  - `aes_ctr` copies the IV into a local 16-byte counter. The block loop of the AES library's `aes_ctr_crypt` then fills a fresh output buffer. `AesCtr` is proved equal to the reference definition `CtrCrypt` (NIST SP 800-38A, section 6.5, with the Appendix B.1 increment).

AES-256 (`aes/aes.h`) and SHA-256 (`hashing/sha256.h`) are not part of this model. They are parameters: `cipher: (key, block) -> block` and `hash: bytes -> bytes`.

NIST SP 800-38A, Appendix B.1, increments the 16-byte counter big-endian with wrap-around at 2^128; the loop at `crypto/crypto.cpp:162-166` does not. `CounterIncrementAsWritten` models that loop as written; `AesCtr` uses the corrected `CounterIncrement` (see Findings).

## Model

| member | source | states |
|---|---|---|
| ModArith.ExptMod | crypto/crypto.cpp:73 | mp_exptmod succeeds exactly when the modulus is positive (MP_VAL otherwise), and the residue it returns is below the modulus |
| ModArith.ModExp | crypto/crypto.cpp:73 | the square-and-multiply loop returns exactly b^e mod m, and returns the MP_VAL error for a zero modulus |
| ModArith.SquareMultiplyStep | crypto/crypto.cpp:73 | one squaring step (multiply in x when the exponent is odd, square x, halve the exponent) keeps acc * x^k mod m unchanged |
| ModArith.PowMod | crypto/crypto.cpp:132 | reducing the base modulo m first does not change b^e mod m, so exponentiating the peer's already-reduced public key is sound |
| ModArith.PowMul | crypto/crypto.cpp:122 | (b^x)^y = b^(x*y), the exponent law behind the shared key g^(ab) |
| ModArith.PowModCommute | crypto/crypto.cpp:116-132 | (g^a mod p)^b mod p and (g^b mod p)^a mod p are both g^(ab) mod p |
| DiffieHellman.GeneratePublicKey | crypto/crypto.cpp:57-81 | g^a mod p with g = 2 succeeds exactly when p > 0, and then lies in [0, p) |
| DiffieHellman.SharedSecret | crypto/crypto.cpp:130-136 | y^b mod p for the peer's value y succeeds exactly when p > 0, and then lies in [0, p) |
| DiffieHellman.CalculateSymmetricKey | crypto/crypto.cpp:116-147 | the key exists exactly when p > 0 and the secret y^b mod p fits 256 bytes; it is then the hash of the secret's minimal big-endian encoding and depends on nothing else |
| DiffieHellman.SharedSecretAgreement | crypto/crypto.cpp:116-132 | each peer, exponentiating the other's public key by its own private key, obtains g^(ab) mod p |
| DiffieHellman.PublicKeyMessage | assh.cpp:58-63 | the bytes a side sends exist exactly when p > 0 and g^priv mod p fits 256 bytes; there are at most 256 of them, and they decode to g^priv mod p |
| DiffieHellman.ReceivedKey | assh.cpp:79-81 | decoding the peer's message and deriving the key gives the hash of the encoding of (g^peerPriv mod p)^priv mod p, for any modulus that fits 256 bytes |
| DiffieHellman.KeyFromMessage | assh.cpp:79-81 | the receiving side's key, buffer_to_mp of the whole received message followed by calculate_symmetric_key, exists exactly when p > 0 and y^priv mod p fits 256 bytes, where y is the message's big-endian value; it is then the hash of that secret's minimal encoding |
| DiffieHellman.HandshakeAgreement | assh.cpp:58-81 | for a modulus that fits 256 bytes, both sides' messages exist and both sides derive the same key, the hash of the minimal encoding of g^(ab) mod p |
| DiffieHellman.ResidueFits | crypto/crypto.cpp:138-139 | every residue of a modulus that fits the 256-byte buffer fits it too |
| DiffieHellman.Ffdhe2048Fits | crypto/crypto.cpp:21-25 | the RFC 7919 ffdhe2048 prime is greater than 1 and below 2^2048 |
| DiffieHellman.Ffdhe2048NeverOverflows | crypto/crypto.cpp:88-95 | with the ffdhe2048 modulus, neither the public key nor the shared secret from any peer value reaches the MP_BUF exit |
| Ubin.UbinValueBound | crypto/crypto.cpp:108 | n bytes decode to a value below 256^n |
| Ubin.UbinBytesValue | crypto/crypto.cpp:90 | the n-byte big-endian encoding of v decodes to v mod 256^n |
| Ubin.UbinSizeBounds | crypto/crypto.cpp:88-90 | mp_ubin_size(v) bytes hold v, and one byte fewer does not |
| Ubin.UbinSizeMonotone | crypto/crypto.cpp:88-90 | a smaller value never needs more bytes |
| Ubin.UbinSizeFits | crypto/crypto.cpp:88-90 | v fits in n bytes exactly when v < 256^n |
| Ubin.UbinRoundTrip | crypto/crypto.cpp:90-108 | decoding the minimal encoding of v gives back v |
| Ubin.ToUbinInjective | crypto/crypto.cpp:138-141 | distinct values have distinct encodings, so distinct shared secrets give distinct hash inputs |
| Ubin.ToUbinMinimal | crypto/crypto.cpp:90 | the encoding has no leading zero byte, and it is empty exactly for zero |
| Ubin.ToUbinOfValue | crypto/crypto.cpp:90-108 | every byte string without a leading zero is the encoding of its own value, so the codec is a bijection on minimal strings |
| Ubin.ToBuffer | crypto/crypto.cpp:83-96 | mp_to_buffer succeeds exactly when the value's size is at most 256 bytes; it then yields at most 256 bytes that decode to the value, and otherwise MP_BUF, never a truncation |
| Ubin.ToBufferFits | crypto/crypto.cpp:88-95 | mp_to_buffer succeeds exactly on the values below 2^2048 |
| Ubin.MpToBuffer | crypto/crypto.cpp:83-96 | writes the minimal encoding into the buffer's prefix and returns its length (at most 256); the rest of the buffer is untouched; buffer_to_mp of that prefix gives back the value; on MP_BUF the buffer is untouched |
| Ubin.BufferToMp | crypto/crypto.cpp:98-114 | the value read from recvSize bytes is below 256^recvSize |
| Ctr.IncStopsAtFirstNonWrap | crypto/crypto.cpp:163-164 | the increment stops at the last byte that is not 0xFF: that byte goes up by one, the 0xFF bytes after it become 0, and the bytes before it are kept |
| Ctr.IncAllWrap | crypto/crypto.cpp:163-164 | a counter of all 0xFF bytes wraps to all zero bytes |
| Ctr.IncValue | crypto/crypto.cpp:162-166 | the intended increment adds one to the counter's big-endian value, modulo 256^16 for a 16-byte counter |
| Ctr.CounterValue | crypto/crypto.cpp:191 | after k increments the counter holds (iv + k) mod 2^128 |
| Ctr.CountersDistinct | crypto/crypto.cpp:191 | no two of the first 2^128 counter blocks are equal, so within a message shorter than 2^132 bytes no counter block is encrypted twice |
| Ctr.CounterIncrement | crypto/crypto.cpp:162-166 | the loop over indices 15 down to 0 leaves the counter incremented big-endian, with wrap-around |
| Ctr.CounterIncrementAsWritten | crypto/crypto.cpp:162-166 | the loop as written needs a 17-byte buffer; it increments bytes 1..16 as one big-endian number and leaves byte 0 and everything after byte 16 alone |
| Ctr.AsWrittenStopsAt | crypto/crypto.cpp:163-164 | for the as-written loop, the stopping byte goes up by one, the wrapped bytes up to index 16 become 0, and everything else is kept |
| Ctr.AsWrittenAllWrap | crypto/crypto.cpp:163-164 | when bytes 1..16 are all 0xFF, the as-written loop clears them and keeps every other byte |
| Ctr.AsWrittenStallsCounter | crypto/crypto.cpp:162-166 | when the byte past the 16-byte counter is not 0xFF, the as-written loop leaves all 16 counter bytes unchanged, whereas the intended increment always changes them |
| Ctr.CtrCrypt | crypto/crypto.cpp:191 | CTR output has exactly the input's length |
| Ctr.CtrCryptByte | crypto/crypto.cpp:185-191 | output byte j is input byte j XOR byte j mod 16 of the encryption of the (j div 16)-th counter value, including a final partial block |
| Ctr.CtrCryptInvolution | crypto/crypto.cpp:168-174 | applying CTR twice with the same key and initial counter gives back the input |
| Ctr.XorBlock | crypto/crypto.cpp:191 | XORing one (possibly partial) block of input with the current keystream block extends the correctly encrypted prefix of the output |
| Ctr.AesCtr | crypto/crypto.cpp:168-198 | the output equals CTR mode under the first 32 key bytes, starting from the IV's 16 bytes; the IV array is only read |
| Ctr.AesCtrRoundTrip | assh.cpp:101-111 | encrypting a command and decrypting the result with the same key and IV gives back the command |

## Left out

- The socket plumbing in `assh.cpp` and `asshd.cpp` is not modelled: connecting, binding, `send` and `recv`. The handshake lemmas assume the receiver gets exactly the bytes the sender wrote. In the code, the sender sends `public_key_written` bytes, which can be fewer than 256, while the receiver waits for 256 bytes with `MSG_WAITALL`.
- `command_loop` reads standard input and draws IVs from `rand()`, so it is left out. Only its encrypt-then-decrypt use of `aes_ctr` is modelled, as `AesCtrRoundTrip`.
- `view_mp` only prints, so it is not modelled.
- `fetch_value_of_big_prime_number` reads the modulus from the environment variable `p_variable` and parses it as hexadecimal. The modulus is a parameter `p` instead, with `Ffdhe2048` as the intended value. The missing null check on `getenv` is not modelled.
- `generate_private_key` draws the private key with `mp_rand(&private_key, 64)`. That is 64 libtommath digits (limbs), whereas the comment at `crypto/crypto.cpp:43` speaks of a 64 digit random value. Private keys are arbitrary naturals here.
- `mp_init` and `mp_clear`, and `new[]` and `delete[]`, only manage memory, so they are not modelled.
- `mp_init_i32` inside `fetch_value_of_generator` can fail only on allocation (MP_MEM), which is left out with the other memory management, so the generator is the constant `Generator`.
- AES-256 encryption and its key schedule (`aes/aes.h`) are a parameter, not a model. So is SHA-256 (`hashing/sha256.h`), including the format of its output string.
- AesCtr: requires at least 32 key bytes. `aes_encrypt_key256` reads 32 bytes from the key string whatever its length, and the read past a shorter string is not modelled.
- The two error branches of `aes_ctr` only print and depend on library internals, so they are not modelled. Those are a failing key schedule and a failing `aes_ctr_crypt`.
- `aes_ctr` keeps the input length in an `int`. Truncation of inputs of 2^31 bytes or more is not modelled.
- `aes_ctr_crypt` keeps the position inside a partial block in its context between calls. `aes_ctr` always starts from a fresh context, so the model starts every call at a block boundary.
- `crypto/crypto.h` holds declarations only.

## Findings

| source | as written | input that shows it | evidently intended | confidence | as-written member | corrected member |
|---|---|---|---|---|---|---|
| crypto/crypto.cpp:162-166 | the carry loop runs over indices 16 down to 1: it reads and writes one byte past the 16-byte `counter_buffer` and never increments byte 0 | an IV of sixteen zero bytes, with the byte after `counter_buffer` holding 0: the 16 counter bytes stay all zero after the increment, so the second block reuses the first block's keystream | a big-endian increment of bytes 15 down to 0, wrapping at 2^128 | high; not executed | Ctr.CounterIncrementAsWritten, Ctr.AsWrittenStallsCounter | Ctr.CounterIncrement, Ctr.IncValue |
