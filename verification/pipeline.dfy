/**
 `transformTo` and `transformFrom` of main.go: compress at the best level,
 encrypt with the fixed passphrase "pass", base64-encode; and the mirror image.
 Every error along the way is discarded, as in the source: a failed stage
 hands its nil (empty) or partial output to the next one.
 */
module Pipeline {
  import opened Types
  import opened Primitives
  import Crypt
  import Hex

  /** The passphrase literal "pass" as bytes. */
  const Pass: seq<byte> := [0x70, 0x61, 0x73, 0x73]

  /**
   `compress`: what a flate writer at `level` emits for `src`. A level outside
   the valid range would leave the writer nil and the next call would panic,
   so callers must pass a valid one.
   */
  function Compress(flate: Flate, src: seq<byte>, level: int): (compressed: seq<byte>)
    requires ValidLevel(level)
    ensures LawfulFlate(flate) ==> flate.inflate(compressed) == Partial(src, true)
  {
    flate.deflate(src, level)
  }

  /** `compressByte`: compression at flate.BestCompression. */
  function CompressByte(flate: Flate, src: seq<byte>): (compressed: seq<byte>)
    ensures LawfulFlate(flate) ==> DecompressByte(flate, compressed) == src
  {
    Compress(flate, src, BestCompression)
  }

  /**
   `decompress`: what io.Copy moves out of a flate reader, which is everything
   decoded before the stream ended or broke, and whether it ended cleanly.
   */
  function Decompress(flate: Flate, src: seq<byte>): (r: Partial)
    ensures LawfulFlate(flate) ==>
              forall b, level :: ValidLevel(level) && src == flate.deflate(b, level) ==> r == Partial(b, true)
    ensures LawfulFlate(flate) && src == [] ==> r == Partial([], false)
  {
    flate.inflate(src)
  }

  /** `decompressByte`: the decompressed bytes; a stream error is dropped. */
  function DecompressByte(flate: Flate, src: seq<byte>): (r: seq<byte>)
    ensures LawfulFlate(flate) ==>
              forall b, level :: ValidLevel(level) && src == flate.deflate(b, level) ==> r == b
    ensures LawfulFlate(flate) && src == [] ==> r == []
  {
    Decompress(flate, src).data
  }

  /** `transformTo`, with the random source given as the bytes it can deliver. */
  function TransformTo(lib: Library, b: seq<byte>, random: seq<byte>): (s: string)
    ensures Lawful(lib) && |random| >= NonceSize ==> TransformFrom(lib, s) == b
    ensures Lawful(lib) && |random| < NonceSize ==> s == ""
  {
    var compressed := CompressByte(lib.flate, b);
    var encrypted := ValueOrNil(Crypt.Encrypt(lib.sha256, lib.gcm, compressed, Pass, random));
    lib.base64.encode(encrypted)
  }

  /**
   `transformFrom`: always returns bytes; no failure is reported. Text that
   decodes to fewer bytes than a nonce and a tag yields no bytes at all.
   */
  function TransformFrom(lib: Library, s: string): (r: seq<byte>)
    ensures Lawful(lib) && |lib.base64.decode(s).data| < NonceSize + TagSize ==> r == []
  {
    var decoded := lib.base64.decode(s).data;
    var decrypted := ValueOrNil(Crypt.Decrypt(lib.sha256, lib.gcm, decoded, Pass));
    DecompressByte(lib.flate, decrypted)
  }

  /** The key used for "pass": the four letters, then 28 digits of its hex digest. */
  lemma PassKey(lib: Library)
    ensures Crypt.DeriveKey(lib.sha256, Pass) == Pass + Hex.Encode(lib.sha256(Pass))[..28]
  {
  }

  /** transformFrom undoes transformTo whenever the random source fills the nonce. */
  lemma RoundTrip(lib: Library, b: seq<byte>, random: seq<byte>)
    requires Lawful(lib)
    requires |random| >= NonceSize
    ensures TransformFrom(lib, TransformTo(lib, b, random)) == b
  {
  }

  /**
   The text transformTo produces decodes cleanly to a sealed blob that starts
   with the nonce and is nonce, compressed input and tag long.
   */
  lemma TransformToShape(lib: Library, b: seq<byte>, random: seq<byte>)
    requires Lawful(lib)
    requires |random| >= NonceSize
    ensures var decoded := lib.base64.decode(TransformTo(lib, b, random));
            && decoded.ok
            && |decoded.data| == NonceSize + |CompressByte(lib.flate, b)| + TagSize
            && decoded.data[..NonceSize] == random[..NonceSize]
  {
  }

  /** When the random source cannot fill the nonce, transformTo returns empty text. */
  lemma TransformToWithoutEntropy(lib: Library, b: seq<byte>, random: seq<byte>)
    requires LawfulBase64(lib.base64)
    requires |random| < NonceSize
    ensures TransformTo(lib, b, random) == ""
  {
  }

  /** Whether base64 decoding reported an error makes no difference to transformFrom. */
  lemma TransformFromIgnoresDecodeError(lib: Library, s1: string, s2: string)
    requires lib.base64.decode(s1).data == lib.base64.decode(s2).data
    ensures TransformFrom(lib, s1) == TransformFrom(lib, s2)
  {
  }

  /**
   A failed decrypt (too short, or rejected by GCM) is not reported: the empty
   slice goes on to decompression, exactly as for empty text, and the flate
   reader yields nothing from it, so transformFrom returns no bytes.
   */
  lemma TransformFromFailedDecrypt(lib: Library, s: string)
    requires LawfulBase64(lib.base64) && LawfulFlate(lib.flate)
    requires Crypt.Decrypt(lib.sha256, lib.gcm, lib.base64.decode(s).data, Pass).Err?
    ensures TransformFrom(lib, s) == DecompressByte(lib.flate, [])
    ensures TransformFrom(lib, s) == TransformFrom(lib, "")
    ensures TransformFrom(lib, s) == []
  {
  }
}
