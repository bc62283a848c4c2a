# qrcode transform pipeline, modelled in Dafny

`qrcode` shrinks and protects a file before turning it into a QR code. The
reversible transform at its core runs in three stages:
- compress with DEFLATE at the best level;
- encrypt with AES-256-GCM under a key derived from the fixed passphrase `"pass"`;
- encode with standard base64.

`transformFrom` runs the same stages backwards.

This project models that transform. It has three parts:

- **Key derivation.** The passphrase is followed by the lowercase hex of its
  SHA-256 digest, and the first 32 bytes are kept. Hex is modelled concretely
  as lowercase Base16 (section 8 of RFC 4648). A decoder that accepts only
  lowercase is its partner, and both round-trip directions are proved.
- **Nonce framing.** `encrypt` returns the nonce followed by the GCM-sealed
  body. `decrypt` refuses input shorter than the nonce, then splits the input at
  the nonce length.
- **Pipeline composition.** `transformTo` and `transformFrom` discard every
  error, just as the Go code does.

The Go library primitives are SHA-256, AES-GCM, `compress/flate` and base64.
The model does not look inside them. Each one is a function value stored in
`Primitives.Library`. The facts the proofs rely on are collected in the
predicate `Primitives.Lawful`:
- GCM open undoes seal;
- seal adds exactly a 16-byte tag, the tag length of NIST SP 800-38D;
- any body that open accepts carries such a tag;
- inflate undoes deflate at every valid level;
- inflating an empty stream yields nothing and reports an error, since it lacks even a final block header;
- base64 decode undoes encode, and encoding no bytes gives empty text.

`Primitives.ToyLibrary` is one insecure library that satisfies all of these
facts at once, which shows they do not contradict each other.

The random source is a parameter `random`: the bytes it can deliver before it
fails. `io.ReadFull` succeeds when 12 bytes are available. It reports EOF when
none are, and an unexpected EOF when only some are.

Go's base64 `DecodeString` returns partial output when it fails, and so does
flate decoding through `io.Copy`. Both are modelled as `Partial(data, ok)`, and
the pipeline keeps `data`. A Go function that fails returns `nil`. In the model
that value is the empty sequence (`Types.ValueOrNil`).

Files: `types.dfy` (bytes, errors, results), `hex.dfy`, `primitives.dfy`,
`crypt.dfy` (`encrypt`/`decrypt`), `pipeline.dfy` (`transformTo`/`transformFrom`).

### Error handling in the code

- Every error is discarded (main.go:72, 79, 80, 101, 102, 103, 109 and 110). No stage reports a failure to the next one.
  - A failed `encrypt` gives `nil`, which is encoded as empty text
    (`Pipeline.TransformToWithoutEntropy`).
  - A failed `decrypt` gives `nil`, which is still handed to decompression. The
    flate reader yields nothing from an empty stream, so `transformFrom` then
    returns no bytes (`Pipeline.TransformFromFailedDecrypt`).
- The passphrase is the literal `"pass"` (main.go:72, 80; `Pipeline.Pass`).
  `Crypt.Encrypt` and `Crypt.Decrypt` take it as a parameter, as the Go
  functions do.
- The key-size error of `aes.NewCipher` can never occur, because the derived
  key is always 32 bytes. `Crypt.Encrypt` states that its only returned
  errors come from the random source.

## Model

| member | source | states |
|---|---|---|
| Hex.Encode | main.go:116 | hex output has two digits per input byte, and every digit is one of `0-9a-f` |
| Hex.EncodeAt | main.go:116 | digits 2i and 2i+1 are the high and low nibble of byte i, as RFC 4648 section 8 defines Base16 |
| Hex.DecodeEncode | main.go:116 | decoding the hex digest gives back the digest bytes |
| Hex.EncodeDecode | main.go:116 | every string the decoder accepts is the encoding of what it decodes to, so lowercase hex has exactly one reading |
| Crypt.DeriveKey | main.go:114-117 | the key is always 32 bytes, so the `[:32]` cut is in range. It is the first 32 bytes of a passphrase of 32 or more bytes. A shorter passphrase is followed by the first 32-len hex digits of its digest. Every byte after the passphrase is a lowercase hex digit |
| Crypt.KeyIgnoresDigest | main.go:116-117 | once the passphrase has 32 bytes, two different hash functions give the same key |
| Crypt.KeyStartsWithPassphrase | main.go:116-117 | the key starts with as much of the passphrase as fits in 32 bytes |
| Crypt.KeyTailDigits | main.go:116-117 | key byte len+i is the high nibble (even i) or low nibble (odd i) of digest byte i/2, written as a hex digit |
| Crypt.NewCipher | main.go:119-122 | the key is accepted exactly when its length is 16, 24 or 32; otherwise the result is a key-size error carrying that length |
| Crypt.ReadFull | main.go:129-132 | the nonce is filled exactly when the source holds at least 12 bytes, and the nonce is its first 12 bytes. Otherwise the result is EOF (nothing read) or unexpected EOF (some bytes read) |
| Crypt.Encrypt | main.go:113-135 | succeeds exactly when the random source fills the nonce, and the only returned errors are random-source errors (the size panic of `gcm.Seal` is under Left out). On success the first 12 bytes are the nonce and the rest is Seal(derived key, nonce, plaintext) |
| Crypt.EncryptLength | main.go:129-134 | a successful encrypt returns 12 + len(plaintext) + 16 bytes |
| Crypt.Decrypt | main.go:137-160 | returns "ciphertext too short" exactly when the input is shorter than 12 bytes. Otherwise it succeeds exactly when Open(derived key, first 12 bytes, the rest) succeeds, and returns Open's plaintext |
| Crypt.DecryptEncrypt | main.go:129-159 | decrypt, given encrypt's output and the same passphrase, returns the original plaintext: the split recovers the nonce and the sealed body |
| Crypt.DecryptNeedsNonceAndTag | main.go:153-159 | input shorter than nonce plus tag (28 bytes) never decrypts |
| Pipeline.Compress | main.go:99-104 | at any valid flate level, inflating the output gives back the input with no stream error |
| Pipeline.CompressByte | main.go:84-97 | decompressByte undoes compressByte |
| Pipeline.Decompress | main.go:106-111 | the bytes io.Copy moves out of the flate reader: for deflate output at any valid level, exactly the original bytes with no error; for an empty stream, nothing and an error |
| Pipeline.DecompressByte | main.go:91-97 | the decompressed bytes with the stream error dropped: the original bytes for any deflate output, and no bytes for an empty stream |
| Pipeline.TransformTo | main.go:70-76 | its text transforms back to the input whenever the random source fills the nonce (restated as the lemma `Pipeline.RoundTrip`); otherwise it is empty text |
| Pipeline.TransformFrom | main.go:78-82 | returns bytes for every text and reports no failure; text whose decoding is shorter than nonce plus tag (28 bytes) yields no bytes |
| Pipeline.PassKey | main.go:72 | the key for `"pass"` is those four bytes followed by the first 28 hex digits of their digest |
| Pipeline.RoundTrip | main.go:70-82 | transformFrom(transformTo(b)) == b for every b, whenever the random source fills the nonce (GCM size panic under Left out) |
| Pipeline.TransformToShape | main.go:70-75 | transformTo's text decodes without error to a blob that starts with the nonce and is 12 + len(compressed) + 16 bytes long |
| Pipeline.TransformToWithoutEntropy | main.go:72-73 | if the random source cannot fill the nonce, the discarded error leaves `nil`, and transformTo returns empty text |
| Pipeline.TransformFromIgnoresDecodeError | main.go:79 | two texts whose base64 decodings give the same bytes transform to the same result, whether or not either decoding reported an error |
| Pipeline.TransformFromFailedDecrypt | main.go:79-81 | when decrypt fails, transformFrom still decompresses the empty slice, the same result as for empty text, and so returns no bytes |

## Left out

- CLI setup and flag parsing (`main`): these are argument plumbing.
- Reading and writing files, and generating and rendering the QR symbol (`qrcode`): these are I/O and a foreign library.
- The debug print of the two lengths in `transformTo`: it is output only.
- Streaming through `bytes.Buffer` and `io.Reader`, and the `Close` calls: each stage is modelled as a function from bytes to bytes.
- Internals of DEFLATE, AES, GCM, SHA-256 and base64: these are library code. The model constrains them only through the facts in `Primitives.Lawful`.
- `cipher.NewGCM` failure: it fails only for a block size other than 16, and AES blocks are always 16 bytes.
- Compress: an invalid level would leave the flate writer nil and panic on `Write`. This is stated as a precondition rather than modelled; the only caller passes level 9.
- Randomness and freshness of the nonce: freshness is probabilistic, so the nonce source is an explicit parameter.
- Tamper detection and wrong-key rejection: these rest on the security of GCM, which cannot be proved here, so they are neither stated nor assumed.
- Failure modes of `rand.Reader` other than running short.
- Crypt.Encrypt: Go's `gcm.Seal` (main.go:134) panics on a plaintext longer than (2^32 - 2) * 16 = 68,719,476,704 bytes; the model's seal is total, so this panic is not modelled. A compressed payload that fits a QR code is many orders of magnitude smaller. The same gap applies to `Pipeline.TransformTo` and `Pipeline.RoundTrip`, whose "for every b" holds only for inputs whose compressed form is under that bound.
- Pipeline.TransformTo: its round-trip ensures inherits the unmodelled `gcm.Seal` size panic described for `Crypt.Encrypt`.
- Pipeline.RoundTrip: likewise holds only for inputs whose compressed form is at most (2^32 - 2) * 16 bytes in the source, where `gcm.Seal` does not panic.
