/**
 The library primitives the pipeline is built from: SHA-256, AES-GCM, DEFLATE
 (`compress/flate`) and standard base64. Their internals are not modelled.
 Each primitive is a function value, and the only facts the rest of the model
 may use about it are collected in a `Lawful` predicate: round trips, output
 lengths and the fixed GCM overhead of NIST SP 800-38D.
 */
module Primitives {
  import opened Types

  /** SHA-256 digest length in bytes (sha256.Size). */
  const DigestSize: nat := 32
  /** The standard GCM nonce length (gcm.NonceSize() for cipher.NewGCM). */
  const NonceSize: nat := 12
  /** The GCM authentication tag length (NIST SP 800-38D, 128-bit tag). */
  const TagSize: nat := 16
  /** flate.HuffmanOnly and flate.BestCompression: the valid level range. */
  const HuffmanOnly: int := -2
  const BestCompression: int := 9

  type Digest = d: seq<byte> | |d| == DigestSize witness seq(DigestSize, _ => 0 as byte)

  /**
   AES-GCM with no associated data: `seal(key, nonce, plaintext)` is the
   ciphertext followed by the tag, `open(key, nonce, body)` verifies and
   decrypts, or fails.
   */
  datatype Gcm = Gcm(
    seal: (seq<byte>, seq<byte>, seq<byte>) -> seq<byte>,
    open: (seq<byte>, seq<byte>, seq<byte>) -> Option<seq<byte>>)

  /**
   DEFLATE: `deflate(data, level)` is everything a flate writer at that level
   emits up to Close; `inflate(stream)` is what a flate reader yields before
   it stops, and whether it stopped at a clean end of stream.
   */
  datatype Flate = Flate(
    deflate: (seq<byte>, int) -> seq<byte>,
    inflate: seq<byte> -> Partial)

  /**
   base64.StdEncoding: `encode` is EncodeToString; `decode` is DecodeString,
   which on malformed text returns the bytes decoded before the error.
   */
  datatype Base64 = Base64(
    encode: seq<byte> -> string,
    decode: string -> Partial)

  datatype Library = Library(sha256: seq<byte> -> Digest, gcm: Gcm, flate: Flate, base64: Base64)

  predicate ValidLevel(level: int) {
    HuffmanOnly <= level <= BestCompression
  }

  /** Open inverts Seal, Seal adds exactly a tag, and a body Open accepts carries one. */
  ghost predicate LawfulGcm(g: Gcm) {
    && (forall k, n, p :: g.open(k, n, g.seal(k, n, p)) == Some(p))
    && (forall k, n, p :: |g.seal(k, n, p)| == |p| + TagSize)
    && (forall k, n, c :: g.open(k, n, c).Some? ==> |c| == |g.open(k, n, c).value| + TagSize)
  }

  /**
   Inflating what any valid level deflated gives the input back, cleanly; an
   empty stream is not a DEFLATE stream (it lacks even a final block header),
   so the reader stops at once, with nothing decoded and an error.
   */
  ghost predicate LawfulFlate(f: Flate) {
    && (forall b, level :: ValidLevel(level) ==> f.inflate(f.deflate(b, level)) == Partial(b, true))
    && f.inflate([]) == Partial([], false)
  }

  /** Decoding inverts encoding, and no bytes encode to no text. */
  ghost predicate LawfulBase64(e: Base64) {
    && (forall b :: e.decode(e.encode(b)) == Partial(b, true))
    && e.encode([]) == ""
  }

  ghost predicate Lawful(lib: Library) {
    LawfulGcm(lib.gcm) && LawfulFlate(lib.flate) && LawfulBase64(lib.base64)
  }

  /**
   A deliberately insecure instance of every primitive, showing that the
   assumptions in `Lawful` can all hold at once: the "cipher" appends sixteen
   zero bytes, the "compressor" copies behind a one-byte header, the "base64"
   maps each byte to one character.
   */
  function ToyLibrary(): (lib: Library)
    ensures Lawful(lib)
  {
    var zeros := seq(TagSize, _ => 0 as byte);
    var gcm := Gcm(
      (k, n, p) => p + zeros,
      (k, n, c) => if |c| >= TagSize && c[|c| - TagSize..] == zeros then Some(c[..|c| - TagSize]) else None);
    var flate := Flate((b, level) => [0 as byte] + b, c => if |c| == 0 then Partial([], false) else Partial(c[1..], true));
    var b64 := Base64(
      b => seq(|b|, i requires 0 <= i < |b| => b[i] as int as char),
      s => if forall i :: 0 <= i < |s| ==> s[i] as int < 256
           then Partial(seq(|s|, i requires 0 <= i < |s| => s[i] as int as byte), true)
           else Partial([], false));
    var lib := Library(_ => seq(DigestSize, _ => 0 as byte), gcm, flate, b64);
    assert LawfulGcm(gcm) by {
      forall k, n, p ensures gcm.open(k, n, gcm.seal(k, n, p)) == Some(p) {
        var c := p + zeros;
        assert c[|c| - TagSize..] == zeros;
        assert c[..|c| - TagSize] == p;
      }
    }
    lib
  }
}
